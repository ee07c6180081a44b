/**
 * The JSON reader over a character stream: the stream is the input text and a
 * position in it. Each loader starts at a position and returns the node read
 * together with the position after it, or a ParsingError.
 */
module JsonLoad {
  import opened Wrappers
  import opened Json

  /** json::ParsingError; its message text is not modelled. */
  datatype ParsingError = ParsingError

  /** A loader's outcome: the node read and the position after it. */
  type Loaded = Result<(Node, nat), ParsingError>

  predicate IsDigit(c: char) { '0' <= c <= '9' }
  predicate IsLower(c: char) { 'a' <= c <= 'z' }
  /** The characters `isspace` accepts in the C locale: space, \t, \n, \v, \f, \r. */
  predicate IsSpace(c: char) { c == ' ' || '\t' <= c <= '\r' }
  predicate AllDigits(s: seq<char>) { forall k | 0 <= k < |s| :: IsDigit(s[k]) }

  /** What `peek()` returns at position i: nothing at the end of the stream. */
  function Peek(input: seq<char>, i: nat): Option<char>
  {
    if i < |input| then Some(input[i]) else None
  }

  /** Where `operator>>` reads its next character: the first non-space at or after i. */
  function SkipSpaces(input: seq<char>, i: nat): (j: nat)
    requires i <= |input|
    ensures i <= j <= |input|
    ensures forall k | i <= k < j :: IsSpace(input[k])
    ensures j < |input| ==> !IsSpace(input[j])
    decreases |input| - i
  {
    if i < |input| && IsSpace(input[i]) then SkipSpaces(input, i + 1) else i
  }

  // ------------------------------------------------------------------
  // Strings
  // ------------------------------------------------------------------

  /** The escape sequences LoadString understands, by the character after the backslash. */
  function Unescaped(c: char): Option<char>
  {
    if c == 'n' then Some('\n')
    else if c == 't' then Some('\t')
    else if c == 'r' then Some('\r')
    else if c == '"' then Some('"')
    else if c == '\\' then Some('\\')
    else None
  }

  /** Puts the characters s in front of a string read further on. */
  function Attach(s: string, r: Result<(string, nat), ParsingError>): Result<(string, nat), ParsingError>
  {
    if r.Err? then r else Ok((s + r.value.0, r.value.1))
  }

  /**
   * The body of a string literal starting at i (just after the opening quote):
   * its characters, with escapes translated, and the position after the closing quote.
   */
  function StringAt(input: seq<char>, i: nat): Result<(string, nat), ParsingError>
    requires i <= |input|
    decreases |input| - i
  {
    if i == |input| then Err(ParsingError)
    else if input[i] == '"' then Ok(([], i + 1))
    else if input[i] == '\\' then
      if i + 1 == |input| then Err(ParsingError)
      else match Unescaped(input[i + 1])
        case None => Err(ParsingError)
        case Some(c) => Attach([c], StringAt(input, i + 2))
    else if input[i] == '\n' || input[i] == '\r' then Err(ParsingError)
    else Attach([input[i]], StringAt(input, i + 1))
  }

  function StringNode(r: Result<(string, nat), ParsingError>): Loaded
  {
    if r.Err? then Err(r.error) else Ok((Str(r.value.0), r.value.1))
  }

  lemma AttachNothing(r: Result<(string, nat), ParsingError>)
    ensures Attach([], r) == r
  {
    if r.Ok? {
      assert [] + r.value.0 == r.value.0;
    }
  }

  lemma AttachAttach(s: string, t: string, r: Result<(string, nat), ParsingError>)
    ensures Attach(s, Attach(t, r)) == Attach(s + t, r)
  {
    if r.Ok? {
      assert s + (t + r.value.0) == (s + t) + r.value.0;
    }
  }

  /** LoadString: called just after the opening quote. */
  method LoadString(input: seq<char>, start: nat) returns (r: Loaded)
    requires start <= |input|
    ensures r == StringNode(StringAt(input, start))
  {
    var it := start;
    var s := "";
    AttachNothing(StringAt(input, start));
    while true
      invariant start <= it <= |input|
      invariant StringAt(input, start) == Attach(s, StringAt(input, it))
      decreases |input| - it
    {
      if it == |input| {
        return Err(ParsingError);
      }
      var ch := input[it];
      if ch == '"' {
        assert s + [] == s;
        return Ok((Str(s), it + 1));
      } else if ch == '\\' {
        it := it + 1;
        if it == |input| {
          return Err(ParsingError);
        }
        var escaped := input[it];
        if escaped == 'n' {
          AttachAttach(s, ['\n'], StringAt(input, it + 1));
          s := s + ['\n'];
        } else if escaped == 't' {
          AttachAttach(s, ['\t'], StringAt(input, it + 1));
          s := s + ['\t'];
        } else if escaped == 'r' {
          AttachAttach(s, ['\r'], StringAt(input, it + 1));
          s := s + ['\r'];
        } else if escaped == '"' {
          AttachAttach(s, ['"'], StringAt(input, it + 1));
          s := s + ['"'];
        } else if escaped == '\\' {
          AttachAttach(s, ['\\'], StringAt(input, it + 1));
          s := s + ['\\'];
        } else {
          return Err(ParsingError);
        }
      } else if ch == '\n' || ch == '\r' {
        return Err(ParsingError);
      } else {
        AttachAttach(s, [ch], StringAt(input, it + 1));
        s := s + [ch];
      }
      it := it + 1;
    }
  }

  /** How PrintValue writes one character of a string. */
  function EscapeChar(c: char): string
  {
    if c == '\\' then "\\\\"
    else if c == '"' then "\\\""
    else if c == '\r' then "\\r"
    else if c == '\n' then "\\n"
    else if c == '\t' then "\\t"
    else [c]
  }

  function Escape(s: string): string
  {
    if s == [] then [] else EscapeChar(s[0]) + Escape(s[1..])
  }

  /** A string node as PrintValue writes it: escaped and in quotes. */
  function PrintString(s: string): string
  {
    "\"" + Escape(s) + "\""
  }

  /** Reading the escaped form of one character yields that character. */
  lemma EscapedChar(c: char, input: seq<char>, i: nat, j: nat)
    requires j == i + |EscapeChar(c)| <= |input|
    requires input[i..j] == EscapeChar(c)
    ensures StringAt(input, i) == Attach([c], StringAt(input, j))
  {
    var e := EscapeChar(c);
    assert input[i] == e[0];
    if |e| == 2 {
      assert input[i + 1] == e[1];
    }
  }

  /** Reading an escaped text yields the characters it escapes, whatever follows. */
  lemma {:induction false} EscapedPrefix(s: string, input: seq<char>, i: nat)
    requires i + |Escape(s)| <= |input|
    requires input[i..i + |Escape(s)|] == Escape(s)
    ensures StringAt(input, i) == Attach(s, StringAt(input, i + |Escape(s)|))
    decreases |s|
  {
    if s == [] {
      assert i + |Escape(s)| == i;
      AttachNothing(StringAt(input, i));
    } else {
      var j := EscapeSplit(s, input, i);
      EscapedChar(s[0], input, i, j);
      EscapedPrefix(s[1..], input, j);
      AttachChain(s, StringAt(input, i), StringAt(input, j), StringAt(input, i + |Escape(s)|));
    }
  }

  /** The escaped text of s is the escaped first character, then the rest escaped. */
  lemma EscapeSplit(s: string, input: seq<char>, i: nat) returns (j: nat)
    requires s != []
    requires i + |Escape(s)| <= |input|
    requires input[i..i + |Escape(s)|] == Escape(s)
    ensures j == i + |EscapeChar(s[0])| && j + |Escape(s[1..])| == i + |Escape(s)|
    ensures input[i..j] == EscapeChar(s[0])
    ensures input[j..j + |Escape(s[1..])|] == Escape(s[1..])
  {
    var e := EscapeChar(s[0]);
    var n := |Escape(s)|;
    assert Escape(s) == e + Escape(s[1..]);
    j := i + |e|;
    assert input[i..j] == input[i..i + n][..|e|];
    assert input[j..i + n] == input[i..i + n][|e|..];
  }

  lemma AttachChain(s: string, whole: Result<(string, nat), ParsingError>,
                    tail: Result<(string, nat), ParsingError>, rest: Result<(string, nat), ParsingError>)
    requires s != []
    requires whole == Attach([s[0]], tail) && tail == Attach(s[1..], rest)
    ensures whole == Attach(s, rest)
  {
    AttachAttach([s[0]], s[1..], rest);
    assert [s[0]] + s[1..] == s;
  }

  /** Printing then loading a string gives it back: the round trip of PrintValue and LoadString. */
  lemma PrintedStringLoads(s: string, rest: seq<char>)
    ensures var text := PrintString(s) + rest;
            StringAt(text, 1) == Ok((s, |PrintString(s)|))
  {
    var text := PrintString(s) + rest;
    var n := |Escape(s)|;
    assert text[1..1 + n] == Escape(s);
    assert text[1 + n] == '"';
    EscapedPrefix(s, text, 1);
    assert s + [] == s;
  }

  /** Without a closing quote anywhere ahead, reading fails. */
  lemma {:induction false} UnterminatedStringFails(input: seq<char>, i: nat)
    requires i <= |input|
    requires forall k | i <= k < |input| :: input[k] != '"'
    ensures StringAt(input, i).Err?
    decreases |input| - i
  {
    if i < |input| && input[i] == '\\' && i + 1 < |input| {
      UnterminatedStringFails(input, i + 2);
    } else if i < |input| && input[i] != '\\' {
      UnterminatedStringFails(input, i + 1);
    }
  }

  /** A raw line break inside a string literal is an error. */
  lemma LineBreakFails(s: string, c: char, input: seq<char>, i: nat)
    requires c == '\n' || c == '\r'
    requires i + |Escape(s)| < |input|
    requires input[i..i + |Escape(s)| + 1] == Escape(s) + [c]
    ensures StringAt(input, i).Err?
  {
    assert input[i..i + |Escape(s)|] == Escape(s) by {
      assert input[i..i + |Escape(s)|] == input[i..i + |Escape(s)| + 1][..|Escape(s)|];
    }
    assert input[i + |Escape(s)|] == c;
    EscapedPrefix(s, input, i);
  }

  /** A backslash followed by anything but n, t, r, a quote or a backslash is an error. */
  lemma UnknownEscapeFails(s: string, c: char, input: seq<char>, i: nat)
    requires Unescaped(c).None?
    requires i + |Escape(s)| + 1 < |input|
    requires input[i..i + |Escape(s)| + 2] == Escape(s) + ['\\', c]
    ensures StringAt(input, i).Err?
  {
    var n := |Escape(s)|;
    assert input[i..i + n] == Escape(s) by {
      assert input[i..i + n] == input[i..i + n + 2][..n];
    }
    assert input[i + n] == '\\' && input[i + n + 1] == c;
    EscapedPrefix(s, input, i);
  }

  /** A stream ending just after a backslash is an error. */
  lemma DanglingBackslashFails(s: string, input: seq<char>, i: nat)
    requires i + |Escape(s)| + 1 == |input|
    requires input[i..] == Escape(s) + ['\\']
    ensures StringAt(input, i).Err?
  {
    var n := |Escape(s)|;
    assert input[i..i + n] == Escape(s) by {
      assert input[i..i + n] == input[i..][..n];
    }
    assert input[i + n] == '\\';
    EscapedPrefix(s, input, i);
  }

  // ------------------------------------------------------------------
  // Numbers
  // ------------------------------------------------------------------

  /** The end of the run of digits starting at i. */
  function DigitsEnd(input: seq<char>, i: nat): (e: nat)
    requires i <= |input|
    ensures i <= e <= |input|
    ensures forall k | i <= k < e :: IsDigit(input[k])
    ensures e < |input| ==> !IsDigit(input[e])
    decreases |input| - i
  {
    if i < |input| && IsDigit(input[i]) then DigitsEnd(input, i + 1) else i
  }

  /** read_digits: one or more digits, up to the first non-digit; ParsingError without a digit. */
  function Digits(input: seq<char>, i: nat): (r: Result<nat, ParsingError>)
    requires i <= |input|
    ensures r.Ok? <==> i < |input| && IsDigit(input[i])
    ensures r.Ok? ==> i < r.value <= |input| && AllDigits(input[i..r.value])
    ensures r.Ok? && r.value < |input| ==> !IsDigit(input[r.value])
  {
    if i < |input| && IsDigit(input[i]) then Ok(DigitsEnd(input, i)) else Err(ParsingError)
  }

  method ReadDigits(input: seq<char>, i: nat) returns (r: Result<nat, ParsingError>)
    requires i <= |input|
    ensures r == Digits(input, i)
  {
    if !(i < |input| && IsDigit(input[i])) {
      return Err(ParsingError);
    }
    var pos := i;
    while pos < |input| && IsDigit(input[pos])
      invariant i <= pos <= |input|
      invariant DigitsEnd(input, pos) == DigitsEnd(input, i)
      decreases |input| - pos
    {
      pos := pos + 1;
    }
    return Ok(pos);
  }

  /** The exponent part of a number: `e` or `E`, an optional sign, digits. */
  datatype Exponent = Exponent(marker: char, sign: Option<char>, digits: seq<char>)

  /** A number as LoadNumber reads it, part by part. */
  datatype Lexeme = Lexeme(negative: bool, whole: seq<char>, fraction: Option<seq<char>>, exponent: Option<Exponent>)

  function SpellFraction(fraction: Option<seq<char>>): seq<char>
  {
    if fraction.Some? then "." + fraction.value else ""
  }

  function SpellExponent(exponent: Option<Exponent>): seq<char>
  {
    if exponent.None? then ""
    else
      var e := exponent.value;
      [e.marker] + (if e.sign.Some? then [e.sign.value] else []) + e.digits
  }

  /** The text of a number. */
  function Spell(x: Lexeme): seq<char>
  {
    (if x.negative then "-" else "") + x.whole + SpellFraction(x.fraction) + SpellExponent(x.exponent)
  }

  /**
   * The number grammar of section 6 of RFC 8259: an optional minus, a single 0
   * or digits not starting with 0, an optional fraction and an optional exponent,
   * each with at least one digit.
   */
  predicate WellFormedWhole(whole: seq<char>)
  {
    whole == "0" || (|whole| > 0 && AllDigits(whole) && whole[0] != '0')
  }

  predicate WellFormedFraction(fraction: Option<seq<char>>)
  {
    fraction.Some? ==> |fraction.value| > 0 && AllDigits(fraction.value)
  }

  predicate WellFormedExponent(exponent: Option<Exponent>)
  {
    exponent.Some? ==>
      var e := exponent.value;
      && (e.marker == 'e' || e.marker == 'E')
      && (e.sign.Some? ==> e.sign.value == '+' || e.sign.value == '-')
      && |e.digits| > 0 && AllDigits(e.digits)
  }

  predicate WellFormed(x: Lexeme)
  {
    WellFormedWhole(x.whole) && WellFormedFraction(x.fraction) && WellFormedExponent(x.exponent)
  }

  /** The integer part from w: a single 0, or one or more digits. */
  function WholeAt(input: seq<char>, w: nat): (r: Result<nat, ParsingError>)
    requires w <= |input|
    ensures r.Ok? ==> w < r.value <= |input|
  {
    if Peek(input, w) == Some('0') then Ok(w + 1) else Digits(input, w)
  }

  /** The fraction from f: nothing unless a decimal point, and then one or more digits. */
  function FractionAt(input: seq<char>, f: nat): (r: Result<(Option<seq<char>>, nat), ParsingError>)
    requires f <= |input|
    ensures r.Ok? ==> f <= r.value.1 <= |input|
  {
    if Peek(input, f) != Some('.') then Ok((None, f))
    else
      var d := Digits(input, f + 1);
      if d.Err? then Err(ParsingError) else Ok((Some(input[f + 1..d.value]), d.value))
  }

  /** The exponent from x: nothing unless `e` or `E`, then an optional sign and one or more digits. */
  function ExponentAt(input: seq<char>, x: nat): (r: Result<(Option<Exponent>, nat), ParsingError>)
    requires x <= |input|
    ensures r.Ok? ==> x <= r.value.1 <= |input|
  {
    if Peek(input, x) != Some('e') && Peek(input, x) != Some('E') then Ok((None, x))
    else
      var hasSign := Peek(input, x + 1) == Some('+') || Peek(input, x + 1) == Some('-');
      var d := if hasSign then x + 2 else x + 1;
      var ds := Digits(input, d);
      if ds.Err? then Err(ParsingError)
      else Ok((Some(Exponent(input[x], if hasSign then Some(input[x + 1]) else None, input[d..ds.value])), ds.value))
  }

  /** The number that starts at `start`, and the position after it. */
  function NumberAt(input: seq<char>, start: nat): Result<(Lexeme, nat), ParsingError>
    requires start <= |input|
  {
    var negative := Peek(input, start) == Some('-');
    var w := if negative then start + 1 else start;
    var whole := WholeAt(input, w);
    if whole.Err? then Err(ParsingError) else
    var fraction := FractionAt(input, whole.value);
    if fraction.Err? then Err(ParsingError) else
    var exponent := ExponentAt(input, fraction.value.1);
    if exponent.Err? then Err(ParsingError) else
    Ok((Lexeme(negative, input[w..whole.value], fraction.value.0, exponent.value.0), exponent.value.1))
  }

  function Pow10(n: nat): (r: nat)
    ensures r > 0
  {
    if n == 0 then 1 else 10 * Pow10(n - 1)
  }

  /** The value of a run of decimal digits. */
  function DigitsValue(ds: seq<char>): nat
  {
    if ds == [] then 0
    else 10 * DigitsValue(ds[..|ds| - 1]) + ((ds[|ds| - 1] as int - '0' as int) % 10)
  }

  function ExponentValue(x: Lexeme): int
  {
    if x.exponent.None? then 0
    else if x.exponent.value.sign == Some('-') then -(DigitsValue(x.exponent.value.digits) as int)
    else DigitsValue(x.exponent.value.digits)
  }

  /** The exact value of the number the text denotes. */
  function DecimalValue(x: Lexeme): real
  {
    var fraction := if x.fraction.Some? then x.fraction.value else [];
    var mantissa := DigitsValue(x.whole + fraction) as real;
    var scale := ExponentValue(x) - |fraction|;
    var magnitude := if scale >= 0 then mantissa * Pow10(scale) as real else mantissa / Pow10(-scale) as real;
    if x.negative then -magnitude else magnitude
  }

  /** What `std::stoi` makes of a number without fraction or exponent. */
  function WholeNumber(x: Lexeme): int
  {
    if x.negative then -(DigitsValue(x.whole) as int) else DigitsValue(x.whole)
  }

  predicate InInt32(v: int) { -0x8000_0000 <= v < 0x8000_0000 }

  /**
   * The node LoadNumber makes: an int when there is neither fraction nor exponent
   * and the value fits an int, otherwise a double. Either way the node reads
   * back, through AsDouble, as the number the text denotes.
   */
  function ToNode(x: Lexeme): (n: Node)
    ensures n.Int? <==> x.fraction.None? && x.exponent.None? && InInt32(WholeNumber(x))
    ensures IsDouble(n) && AsDouble(n) == Ok(DecimalValue(x))
  {
    if x.fraction.None? && x.exponent.None? && InInt32(WholeNumber(x))
    then
      assert x.whole + [] == x.whole;
      assert ExponentValue(x) == 0 && Pow10(0) == 1;
      assert DecimalValue(x) == WholeNumber(x) as real;
      Int(WholeNumber(x) as Int32)
    else Double(DecimalValue(x))
  }

  function NumberNode(r: Result<(Lexeme, nat), ParsingError>): Loaded
  {
    if r.Err? then Err(r.error) else Ok((ToNode(r.value.0), r.value.1))
  }

  method ReadFraction(input: seq<char>, f: nat) returns (r: Result<(Option<seq<char>>, nat), ParsingError>)
    requires f <= |input|
    ensures r == FractionAt(input, f)
  {
    if Peek(input, f) != Some('.') {
      return Ok((None, f));
    }
    var d := ReadDigits(input, f + 1);
    if d.Err? {
      return Err(d.error);
    }
    r := Ok((Some(input[f + 1..d.value]), d.value));
  }

  method ReadExponent(input: seq<char>, x: nat) returns (r: Result<(Option<Exponent>, nat), ParsingError>)
    requires x <= |input|
    ensures r == ExponentAt(input, x)
  {
    if Peek(input, x) != Some('e') && Peek(input, x) != Some('E') {
      return Ok((None, x));
    }
    var marker := input[x];
    var pos := x + 1;
    var sign := None;
    if Peek(input, pos) == Some('+') || Peek(input, pos) == Some('-') {
      sign := Some(input[pos]);
      pos := pos + 1;
    }
    var d := ReadDigits(input, pos);
    if d.Err? {
      return Err(d.error);
    }
    r := Ok((Some(Exponent(marker, sign, input[pos..d.value])), d.value));
  }

  /** LoadNumber: called at the first character of a number. */
  method LoadNumber(input: seq<char>, start: nat) returns (r: Loaded)
    requires start <= |input|
    ensures r == NumberNode(NumberAt(input, start))
  {
    var pos := start;
    var negative := false;
    if Peek(input, pos) == Some('-') {
      negative := true;
      pos := pos + 1;
    }
    var wholeStart := pos;
    if Peek(input, pos) == Some('0') {
      pos := pos + 1;
    } else {
      var d := ReadDigits(input, pos);
      if d.Err? {
        return Err(d.error);
      }
      pos := d.value;
    }
    var wholeEnd := pos;
    assert WholeAt(input, wholeStart) == Ok(wholeEnd);
    var isInt := true;
    var fraction := ReadFraction(input, pos);
    if fraction.Err? {
      return Err(fraction.error);
    }
    if fraction.value.0.Some? {
      isInt := false;
    }
    pos := fraction.value.1;
    var exponent := ReadExponent(input, pos);
    if exponent.Err? {
      return Err(exponent.error);
    }
    if exponent.value.0.Some? {
      isInt := false;
    }
    pos := exponent.value.1;
    var lexeme := Lexeme(negative, input[wholeStart..wholeEnd], fraction.value.0, exponent.value.0);
    assert NumberAt(input, start) == Ok((lexeme, pos));
    assert isInt <==> lexeme.fraction.None? && lexeme.exponent.None?;
    if isInt && InInt32(WholeNumber(lexeme)) {
      r := Ok((Int(WholeNumber(lexeme) as Int32), pos));
    } else {
      r := Ok((Double(DecimalValue(lexeme)), pos));
    }
  }

  /** A run of digits found where it is spelled, and ending where the text says. */
  lemma {:induction false} DigitsEndAt(input: seq<char>, i: nat, ds: seq<char>)
    requires i + |ds| <= |input| && input[i..i + |ds|] == ds && AllDigits(ds)
    requires i + |ds| < |input| ==> !IsDigit(input[i + |ds|])
    ensures DigitsEnd(input, i) == i + |ds|
    decreases |ds|
  {
    if ds != [] {
      assert input[i] == ds[0];
      assert input[i + 1..i + |ds|] == ds[1..];
      DigitsEndAt(input, i + 1, ds[1..]);
    }
  }

  lemma WholeSpelled(input: seq<char>, w: nat, whole: seq<char>)
    requires WellFormedWhole(whole)
    requires w + |whole| <= |input| && input[w..w + |whole|] == whole
    requires whole != "0" && w + |whole| < |input| ==> !IsDigit(input[w + |whole|])
    ensures WholeAt(input, w) == Ok(w + |whole|)
  {
    assert input[w] == whole[0];
    if whole != "0" {
      DigitsEndAt(input, w, whole);
    }
  }

  lemma FractionSpelled(input: seq<char>, f: nat, fraction: Option<seq<char>>)
    requires WellFormedFraction(fraction)
    requires f + |SpellFraction(fraction)| <= |input|
    requires input[f..f + |SpellFraction(fraction)|] == SpellFraction(fraction)
    requires var e := f + |SpellFraction(fraction)|;
             e < |input| ==> (fraction.None? ==> input[e] != '.') && (fraction.Some? ==> !IsDigit(input[e]))
    ensures FractionAt(input, f) == Ok((fraction, f + |SpellFraction(fraction)|))
  {
    if fraction.Some? {
      var ds := fraction.value;
      var t := SpellFraction(fraction);
      assert input[f] == t[0] == '.';
      SliceAt(input, f, t, 1, |t|);
      assert t[1..] == ds;
      assert input[f + 1] == ds[0];
      DigitsEndAt(input, f + 1, ds);
    }
  }

  lemma ExponentSpelled(input: seq<char>, x: nat, exponent: Option<Exponent>)
    requires WellFormedExponent(exponent)
    requires x + |SpellExponent(exponent)| <= |input|
    requires input[x..x + |SpellExponent(exponent)|] == SpellExponent(exponent)
    requires var e := x + |SpellExponent(exponent)|;
             e < |input| ==> (exponent.None? ==> input[e] != 'e' && input[e] != 'E') && (exponent.Some? ==> !IsDigit(input[e]))
    ensures ExponentAt(input, x) == Ok((exponent, x + |SpellExponent(exponent)|))
  {
    if exponent.Some? {
      var ex := exponent.value;
      var d := if ex.sign.Some? then x + 2 else x + 1;
      var n := x + |SpellExponent(exponent)|;
      assert input[x] == ex.marker;
      if ex.sign.Some? {
        assert input[x + 1] == ex.sign.value;
      } else {
        assert input[x + 1] == ex.digits[0];
      }
      assert input[d..n] == ex.digits;
      assert input[d] == ex.digits[0];
      DigitsEndAt(input, d, ex.digits);
    }
  }

  /** Whether the characters after a number's text leave it as it is. */
  predicate Delimits(x: Lexeme, rest: seq<char>)
  {
    rest == [] ||
    var c := rest[0];
    && (IsDigit(c) ==> x.whole == "0" && x.fraction.None? && x.exponent.None?)
    && (x.fraction.None? && x.exponent.None? ==> c != '.')
    && (x.exponent.None? ==> c != 'e' && c != 'E')
  }

  lemma SliceOfSlice(s: seq<char>, a: nat, b: nat, c: nat, d: nat)
    requires a <= b <= |s| && c <= d <= b - a
    ensures s[a..b][c..d] == s[a + c..a + d]
  {
    assert forall k | 0 <= k < d - c :: s[a..b][c..d][k] == s[a + c..a + d][k];
  }

  lemma FourParts(a: seq<char>, b: seq<char>, c: seq<char>, d: seq<char>)
    ensures var t := a + b + c + d;
            && t[..|a|] == a
            && t[|a|..|a| + |b|] == b
            && t[|a| + |b|..|a| + |b| + |c|] == c
            && t[|a| + |b| + |c|..] == d
  {
  }

  lemma SliceAt(input: seq<char>, start: nat, t: seq<char>, a: nat, b: nat)
    requires start + |t| <= |input| && input[start..start + |t|] == t
    requires a <= b <= |t|
    ensures input[start + a..start + b] == t[a..b]
  {
    SliceOfSlice(input, start, start + |t|, a, b);
  }

  /** Where the parts of a number's text lie in the input. */
  lemma SpellParts(x: Lexeme, input: seq<char>, start: nat)
    requires start + |Spell(x)| <= |input| && input[start..start + |Spell(x)|] == Spell(x)
    ensures var w := start + (if x.negative then 1 else 0);
            var f := w + |x.whole|;
            var e := f + |SpellFraction(x.fraction)|;
            && input[start..w] == (if x.negative then "-" else "")
            && input[w..f] == x.whole
            && input[f..e] == SpellFraction(x.fraction)
            && input[e..start + |Spell(x)|] == SpellExponent(x.exponent)
  {
    var t := Spell(x);
    var a := if x.negative then "-" else "";
    var c := SpellFraction(x.fraction);
    var d := SpellExponent(x.exponent);
    FourParts(a, x.whole, c, d);
    var w := |a|;
    var f := w + |x.whole|;
    var e := f + |c|;
    assert t == a + x.whole + c + d;
    SliceAt(input, start, t, 0, w);
    SliceAt(input, start, t, w, f);
    SliceAt(input, start, t, f, e);
    SliceAt(input, start, t, e, |t|);
  }

  /** The characters that end each part of a number's text. */
  lemma SpellBoundaries(x: Lexeme, input: seq<char>, start: nat)
    requires WellFormed(x)
    requires start + |Spell(x)| <= |input| && input[start..start + |Spell(x)|] == Spell(x)
    ensures var w := start + (if x.negative then 1 else 0);
            var f := w + |x.whole|;
            var e := f + |SpellFraction(x.fraction)|;
            var n := start + |Spell(x)|;
            && (Peek(input, start) == Some('-') <==> x.negative)
            && (f < n ==> input[f] == (if x.fraction.Some? then '.' else x.exponent.value.marker))
            && (e < n ==> input[e] == x.exponent.value.marker)
            && (f == n ==> x.fraction.None? && x.exponent.None?)
            && (e == n ==> x.exponent.None?)
  {
    var w := start + (if x.negative then 1 else 0);
    var f := w + |x.whole|;
    var e := f + |SpellFraction(x.fraction)|;
    var n := start + |Spell(x)|;
    SpellParts(x, input, start);
    if x.negative {
      assert input[start] == input[start..w][0];
    } else {
      assert input[start] == input[w..f][0] == x.whole[0];
    }
    if x.fraction.Some? {
      assert input[f] == input[f..e][0];
    } else if x.exponent.Some? {
      assert input[f] == input[e..n][0];
    }
    if x.exponent.Some? {
      assert input[e] == input[e..n][0];
    }
  }

  /** NumberAt in terms of its three parts. */
  lemma NumberFromParts(input: seq<char>, start: nat, x: Lexeme, w: nat, f: nat, e: nat, n: nat)
    requires start <= |input|
    requires x.negative == (Peek(input, start) == Some('-'))
    requires w == if x.negative then start + 1 else start
    requires w <= f <= |input| && x.whole == input[w..f]
    requires WholeAt(input, w) == Ok(f)
    requires FractionAt(input, f) == Ok((x.fraction, e))
    requires ExponentAt(input, e) == Ok((x.exponent, n))
    ensures NumberAt(input, start) == Ok((x, n))
  {
  }

  /** What the character after a number's text must not be for its integer part and fraction to end there. */
  predicate EndsFraction(x: Lexeme, input: seq<char>, n: nat)
  {
    n < |input| && x.exponent.None? ==>
      && (IsDigit(input[n]) ==> x.whole == "0" && x.fraction.None?)
      && (x.fraction.None? ==> input[n] != '.')
  }

  /** The integer part and the fraction of a number's text read as spelled. */
  lemma WholeAndFraction(x: Lexeme, input: seq<char>, start: nat, w: nat, f: nat, e: nat)
    requires WellFormed(x)
    requires start + |Spell(x)| <= |input| && input[start..start + |Spell(x)|] == Spell(x)
    requires EndsFraction(x, input, start + |Spell(x)|)
    requires w == start + (if x.negative then 1 else 0) && f == w + |x.whole|
    requires e == f + |SpellFraction(x.fraction)|
    ensures x.negative == (Peek(input, start) == Some('-'))
    ensures w <= f <= |input| && input[w..f] == x.whole
    ensures WholeAt(input, w) == Ok(f)
    ensures FractionAt(input, f) == Ok((x.fraction, e))
  {
    WholePartRead(x, input, start, w, f);
    FractionPartRead(x, input, start, w, f, e);
  }

  lemma WholePartRead(x: Lexeme, input: seq<char>, start: nat, w: nat, f: nat)
    requires WellFormed(x)
    requires start + |Spell(x)| <= |input| && input[start..start + |Spell(x)|] == Spell(x)
    requires EndsFraction(x, input, start + |Spell(x)|)
    requires w == start + (if x.negative then 1 else 0) && f == w + |x.whole|
    ensures x.negative == (Peek(input, start) == Some('-'))
    ensures w <= f <= |input| && input[w..f] == x.whole
    ensures WholeAt(input, w) == Ok(f)
  {
    SpellParts(x, input, start);
    SpellBoundaries(x, input, start);
    WholeSpelled(input, w, x.whole);
  }

  lemma FractionPartRead(x: Lexeme, input: seq<char>, start: nat, w: nat, f: nat, e: nat)
    requires WellFormed(x)
    requires start + |Spell(x)| <= |input| && input[start..start + |Spell(x)|] == Spell(x)
    requires EndsFraction(x, input, start + |Spell(x)|)
    requires w == start + (if x.negative then 1 else 0) && f == w + |x.whole|
    requires e == f + |SpellFraction(x.fraction)|
    ensures FractionAt(input, f) == Ok((x.fraction, e))
  {
    SpellParts(x, input, start);
    SpellBoundaries(x, input, start);
    FractionSpelled(input, f, x.fraction);
  }

  lemma SpelledExponent(x: Lexeme, input: seq<char>, start: nat, e: nat, n: nat)
    requires WellFormed(x)
    requires start + |Spell(x)| <= |input| && input[start..start + |Spell(x)|] == Spell(x)
    requires Delimits(x, input[start + |Spell(x)|..])
    requires e == start + (if x.negative then 1 else 0) + |x.whole| + |SpellFraction(x.fraction)|
    requires n == start + |Spell(x)|
    ensures ExponentAt(input, e) == Ok((x.exponent, n))
  {
    SpellParts(x, input, start);
    assert n < |input| ==> input[n] == input[n..][0];
    ExponentSpelled(input, e, x.exponent);
  }

  /** A well-formed number's text, wherever it stands, reads as that number. */
  lemma SpelledNumberAt(x: Lexeme, input: seq<char>, start: nat)
    requires WellFormed(x)
    requires start + |Spell(x)| <= |input| && input[start..start + |Spell(x)|] == Spell(x)
    requires Delimits(x, input[start + |Spell(x)|..])
    ensures NumberAt(input, start) == Ok((x, start + |Spell(x)|))
  {
    var w := start + (if x.negative then 1 else 0);
    var f := w + |x.whole|;
    var e := f + |SpellFraction(x.fraction)|;
    var n := start + |Spell(x)|;
    assert EndsFraction(x, input, n) by {
      if n < |input| {
        assert input[n] == input[n..][0];
      }
    }
    WholeAndFraction(x, input, start, w, f, e);
    SpelledExponent(x, input, start, e, n);
    NumberFromParts(input, start, x, w, f, e, n);
  }

  /** Every well-formed number reads back from its own text. */
  lemma SpelledNumberLoads(x: Lexeme, rest: seq<char>)
    requires WellFormed(x) && Delimits(x, rest)
    ensures NumberAt(Spell(x) + rest, 0) == Ok((x, |Spell(x)|))
  {
    var input := Spell(x) + rest;
    assert input[..|Spell(x)|] == Spell(x);
    assert input[|Spell(x)|..] == rest;
    SpelledNumberAt(x, input, 0);
  }


  lemma WholeRead(input: seq<char>, w: nat)
    requires w <= |input| && WholeAt(input, w).Ok?
    ensures var e := WholeAt(input, w).value;
            WellFormedWhole(input[w..e]) && (input[w..e] != "0" && e < |input| ==> !IsDigit(input[e]))
  {
    var e := WholeAt(input, w).value;
    if Peek(input, w) == Some('0') {
      assert input[w..e] == "0";
    } else {
      assert input[w..e][0] == input[w];
    }
  }

  lemma FractionRead(input: seq<char>, f: nat)
    requires f <= |input| && FractionAt(input, f).Ok?
    ensures var (fraction, e) := FractionAt(input, f).value;
            && WellFormedFraction(fraction)
            && f + |SpellFraction(fraction)| == e && input[f..e] == SpellFraction(fraction)
            && (e < |input| ==> (fraction.None? ==> input[e] != '.') && (fraction.Some? ==> !IsDigit(input[e])))
  {
    var (fraction, e) := FractionAt(input, f).value;
    if fraction.Some? {
      assert input[f..e] == [input[f]] + input[f + 1..e];
    }
  }

  lemma ExponentRead(input: seq<char>, x: nat)
    requires x <= |input| && ExponentAt(input, x).Ok?
    ensures var (exponent, e) := ExponentAt(input, x).value;
            && WellFormedExponent(exponent)
            && x + |SpellExponent(exponent)| == e && input[x..e] == SpellExponent(exponent)
            && (e < |input| ==> (exponent.None? ==> input[e] != 'e' && input[e] != 'E') && (exponent.Some? ==> !IsDigit(input[e])))
  {
    var (exponent, e) := ExponentAt(input, x).value;
    if exponent.Some? {
      var ex := exponent.value;
      var d := if ex.sign.Some? then x + 2 else x + 1;
      if ex.sign.Some? {
        assert input[x..e] == [input[x], input[x + 1]] + input[d..e];
      } else {
        assert input[x..e] == [input[x]] + input[d..e];
      }
    }
  }

  /** The three parts NumberAt read, and where each ends. */
  lemma PartsOfNumber(input: seq<char>, start: nat)
    requires start <= |input|
    requires NumberAt(input, start).Ok?
    ensures var (x, e) := NumberAt(input, start).value;
            var w := if x.negative then start + 1 else start;
            && x.negative == (Peek(input, start) == Some('-'))
            && WholeAt(input, w).Ok? && x.whole == input[w..WholeAt(input, w).value]
            && FractionAt(input, WholeAt(input, w).value).Ok?
            && FractionAt(input, WholeAt(input, w).value).value.0 == x.fraction
            && ExponentAt(input, FractionAt(input, WholeAt(input, w).value).value.1)
               == Ok((x.exponent, e))
  {
  }

  lemma SplitFour(input: seq<char>, a: nat, b: nat, c: nat, d: nat, e: nat)
    requires a <= b <= c <= d <= e <= |input|
    ensures input[a..e] == input[a..b] + input[b..c] + input[c..d] + input[d..e]
  {
    assert input[a..c] == input[a..b] + input[b..c];
    assert input[a..d] == input[a..c] + input[c..d];
    assert input[a..e] == input[a..d] + input[d..e];
  }

  /** The number text NumberAt accepts is well formed and is exactly what it consumed. */
  lemma LoadedNumberIsWellFormed(input: seq<char>, start: nat)
    requires start <= |input|
    requires NumberAt(input, start).Ok?
    ensures var (x, e) := NumberAt(input, start).value;
            WellFormed(x) && start + |Spell(x)| == e <= |input| && input[start..e] == Spell(x)
            && Delimits(x, input[e..])
  {
    var (x, e) := NumberAt(input, start).value;
    PartsOfNumber(input, start);
    var w := if x.negative then start + 1 else start;
    var f := WholeAt(input, w).value;
    var n := FractionAt(input, f).value.1;
    WholeRead(input, w);
    FractionRead(input, f);
    ExponentRead(input, n);
    assert input[start..w] == (if x.negative then "-" else "");
    SplitFour(input, start, w, f, n, e);
    if e < |input| {
      assert input[e..][0] == input[e];
    }
  }

  /** A minus sign, or nothing, followed by neither a digit nor a minus sign: "A digit is expected". */
  lemma WholeNeedsDigit(negative: bool, rest: seq<char>)
    requires rest == [] || (!IsDigit(rest[0]) && rest[0] != '-')
    ensures NumberAt((if negative then "-" else "") + rest, 0).Err?
  {
    var input := (if negative then "-" else "") + rest;
    var w := if negative then 1 else 0;
    assert input[w..] == rest;
    assert Peek(input, w) == (if rest == [] then None else Some(rest[0]));
  }

  /** A decimal point followed by no digit. */
  lemma FractionNeedsDigit(x: Lexeme, rest: seq<char>)
    requires WellFormed(x) && x.fraction.None? && x.exponent.None?
    requires rest == [] || !IsDigit(rest[0])
    ensures NumberAt(Spell(x) + "." + rest, 0).Err?
  {
    var input := Spell(x) + "." + rest;
    var w := if x.negative then 1 else 0;
    var f := w + |x.whole|;
    assert input == (if x.negative then "-" else "") + x.whole + "." + rest;
    assert input[w..f] == x.whole;
    assert input[f] == '.';
    assert input[f + 1..] == rest;
    assert Peek(input, 0) == Some('-') <==> x.negative by {
      if !x.negative {
        assert input[0] == x.whole[0];
      }
    }
    WholeSpelled(input, w, x.whole);
  }

  /** An exponent marker, with or without a sign, followed by no digit. */
  lemma ExponentNeedsDigit(x: Lexeme, marker: char, sign: Option<char>, rest: seq<char>)
    requires WellFormed(x) && x.exponent.None?
    requires marker == 'e' || marker == 'E'
    requires sign.Some? ==> sign.value == '+' || sign.value == '-'
    requires rest == [] || (!IsDigit(rest[0]) && (sign.None? ==> rest[0] != '+' && rest[0] != '-'))
    ensures var head := [marker] + (if sign.Some? then [sign.value] else []);
            NumberAt(Spell(x) + head + rest, 0).Err?
  {
    var head := [marker] + (if sign.Some? then [sign.value] else []);
    var input := Spell(x) + head + rest;
    var n := |Spell(x)|;
    assert input[..n] == Spell(x);
    assert input[n..] == head + rest;
    assert input[n] == marker;
    var w := if x.negative then 1 else 0;
    var f := w + |x.whole|;
    WholeAndFraction(x, input, 0, w, f, n);
    ExponentMissesDigit(input, n, head, rest);
    FailsAtExponent(input, 0, x.negative, w, f, n);
  }

  /** NumberAt fails when the exponent does, after the integer part and the fraction. */
  lemma FailsAtExponent(input: seq<char>, start: nat, negative: bool, w: nat, f: nat, e: nat)
    requires start <= |input|
    requires negative == (Peek(input, start) == Some('-'))
    requires w == if negative then start + 1 else start
    requires w <= |input| && WholeAt(input, w) == Ok(f)
    requires FractionAt(input, f).Ok? && FractionAt(input, f).value.1 == e
    requires ExponentAt(input, e).Err?
    ensures NumberAt(input, start).Err?
  {
  }

  lemma ExponentMissesDigit(input: seq<char>, e: nat, head: seq<char>, rest: seq<char>)
    requires e + |head| + |rest| == |input| && input[e..] == head + rest
    requires |head| == 1 || |head| == 2
    requires head[0] == 'e' || head[0] == 'E'
    requires |head| == 2 ==> head[1] == '+' || head[1] == '-'
    requires rest == [] || (!IsDigit(rest[0]) && (|head| == 1 ==> rest[0] != '+' && rest[0] != '-'))
    ensures ExponentAt(input, e).Err?
  {
    assert input[e] == head[0];
    if |head| == 2 {
      assert input[e + 1] == head[1];
    }
    if rest != [] {
      assert input[e + |head|] == rest[0];
    }
  }

  // ------------------------------------------------------------------
  // Literal names
  // ------------------------------------------------------------------

  /** The node a literal name stands for (section 3 of RFC 8259). */
  function KeywordNode(word: string): Result<Node, ParsingError>
  {
    if word == "null" then Ok(Null)
    else if word == "true" then Ok(Bool(true))
    else if word == "false" then Ok(Bool(false))
    else Err(ParsingError)
  }

  function KeywordLoaded(word: string, end: nat): Loaded
  {
    if KeywordNode(word).Err? then Err(ParsingError) else Ok((KeywordNode(word).value, end))
  }

  /**
   * The word LoadBoolAndNull collects as written: every letter is read with
   * `operator>>`, which skips white space first, so spaces between letters vanish.
   */
  function SpacedWordAt(input: seq<char>, i: nat): (string, nat)
    requires i <= |input|
    decreases |input| - i
  {
    var j := SkipSpaces(input, i);
    if j < |input| && IsLower(input[j]) then
      var (w, e) := SpacedWordAt(input, j + 1);
      ([input[j]] + w, e)
    else ([], j)
  }

  /** The run of lower-case letters starting at i, and the position after it. */
  function WordAt(input: seq<char>, i: nat): (r: (string, nat))
    requires i <= |input|
    ensures i + |r.0| == r.1 <= |input| && input[i..r.1] == r.0
    ensures forall k | 0 <= k < |r.0| :: IsLower(r.0[k])
    ensures r.1 < |input| ==> !IsLower(input[r.1])
    decreases |input| - i
  {
    if i < |input| && IsLower(input[i]) then
      var (w, e) := WordAt(input, i + 1);
      ([input[i]] + w, e)
    else ([], i)
  }

  /** As written, a literal name with spaces between its letters is accepted. */
  lemma SpacedKeywordAccepted()
    ensures SpacedWordAt("t r u e]", 0) == ("true", 7)
    ensures KeywordLoaded("true", 7) == Ok((Bool(true), 7))
    ensures KeywordLoaded(WordAt("t r u e]", 0).0, WordAt("t r u e]", 0).1).Err?
  {
    var text := "t r u e]";
    SpacedTail(text);
    assert text[3] == ' ' && text[2] == 'r' && text[1] == ' ' && text[0] == 't';
    assert SkipSpaces(text, 3) == 4;
    assert SkipSpaces(text, 2) == 2;
    assert SkipSpaces(text, 1) == 2;
    assert SkipSpaces(text, 0) == 0;
    assert SpacedWordAt(text, 1) == (['r'] + "ue", 7);
    assert ['r'] + "ue" == "rue";
    assert SpacedWordAt(text, 0) == (['t'] + "rue", 7);
    assert ['t'] + "rue" == "true";
    assert WordAt(text, 1) == ([], 1);
    assert WordAt(text, 0) == (['t'] + [], 1);
  }

  lemma SpacedTail(text: string)
    requires text == "t r u e]"
    ensures SpacedWordAt(text, 3) == ("ue", 7)
  {
    assert text[7] == ']' && text[6] == 'e' && text[5] == ' ' && text[4] == 'u' && text[3] == ' ';
    assert SkipSpaces(text, 7) == 7;
    assert SkipSpaces(text, 6) == 6;
    assert SkipSpaces(text, 5) == 6;
    assert SkipSpaces(text, 4) == 4;
    assert SkipSpaces(text, 3) == 4;
    assert SpacedWordAt(text, 7) == ([], 7);
    assert SpacedWordAt(text, 5) == (['e'] + [], 7);
    assert ['e'] + [] == "e";
    assert SpacedWordAt(text, 3) == (['u'] + "e", 7);
    assert ['u'] + "e" == "ue";
  }

  /**
   * LoadBoolAndNull, reading the letters contiguously: the word ends at the
   * first character that is not a lower-case letter, which is left unread.
   */
  method LoadBoolAndNull(input: seq<char>, start: nat) returns (r: Loaded)
    requires start <= |input|
    ensures r == KeywordLoaded(WordAt(input, start).0, WordAt(input, start).1)
  {
    var pos := start;
    var word := "";
    assert WordAt(input, start).0 == word + WordAt(input, start).0;
    while pos < |input| && IsLower(input[pos])
      invariant start <= pos <= |input|
      invariant WordAt(input, start) == (word + WordAt(input, pos).0, WordAt(input, pos).1)
      decreases |input| - pos
    {
      assert word + ([input[pos]] + WordAt(input, pos + 1).0) == (word + [input[pos]]) + WordAt(input, pos + 1).0;
      word := word + [input[pos]];
      pos := pos + 1;
    }
    assert word + [] == word;
    if word == "null" {
      r := Ok((Null, pos));
    } else if word == "true" {
      r := Ok((Bool(true), pos));
    } else if word == "false" {
      r := Ok((Bool(false), pos));
    } else {
      r := Err(ParsingError);
    }
  }

  /**
   * LoadBoolAndNull as written: each letter is fetched with `operator>>`, so white
   * space before it is consumed first; the first other character is put back.
   */
  method LoadBoolAndNullAsWritten(input: seq<char>, start: nat) returns (r: Loaded)
    requires start <= |input|
    ensures r == KeywordLoaded(SpacedWordAt(input, start).0, SpacedWordAt(input, start).1)
  {
    var word := "";
    var pos := SkipSpaces(input, start);
    SkippedSpacesRead(input, start);
    assert SpacedWordAt(input, start).0 == word + SpacedWordAt(input, pos).0;
    while pos < |input| && IsLower(input[pos])
      invariant start <= pos <= |input|
      invariant pos < |input| ==> !IsSpace(input[pos])
      invariant SpacedWordAt(input, start) == (word + SpacedWordAt(input, pos).0, SpacedWordAt(input, pos).1)
      decreases |input| - pos
    {
      var next := SkipSpaces(input, pos + 1);
      SpacedStep(input, start, pos, word);
      word := word + [input[pos]];
      pos := next;
    }
    assert word + [] == word;
    assert (word, pos) == SpacedWordAt(input, start);
    if word == "null" {
      r := Ok((Null, pos));
    } else if word == "true" {
      r := Ok((Bool(true), pos));
    } else if word == "false" {
      r := Ok((Bool(false), pos));
    } else {
      r := Err(ParsingError);
    }
  }

  /** One round of the as-written loop: the letter read joins the word, and white space after it is skipped. */
  lemma SpacedStep(input: seq<char>, start: nat, pos: nat, word: string)
    requires start <= pos < |input| && IsLower(input[pos])
    requires SpacedWordAt(input, start) == (word + SpacedWordAt(input, pos).0, SpacedWordAt(input, pos).1)
    ensures var next := SkipSpaces(input, pos + 1);
            SpacedWordAt(input, start) == ((word + [input[pos]]) + SpacedWordAt(input, next).0, SpacedWordAt(input, next).1)
  {
    var t := SpacedWordAt(input, SkipSpaces(input, pos + 1));
    SpacedUnfold(input, pos);
    assert word + ([input[pos]] + t.0) == (word + [input[pos]]) + t.0;
  }

  lemma SpacedUnfold(input: seq<char>, pos: nat)
    requires pos < |input| && IsLower(input[pos])
    ensures var next := SkipSpaces(input, pos + 1);
            SpacedWordAt(input, pos) == ([input[pos]] + SpacedWordAt(input, next).0, SpacedWordAt(input, next).1)
  {
    SkippedSpacesRead(input, pos + 1);
    assert SkipSpaces(input, pos) == pos;
  }

  /** Reading after the white space that `operator>>` skips is reading from where it starts. */
  lemma SkippedSpacesRead(input: seq<char>, i: nat)
    requires i <= |input|
    ensures SpacedWordAt(input, i) == SpacedWordAt(input, SkipSpaces(input, i))
  {
    var j := SkipSpaces(input, i);
    assert SkipSpaces(input, j) == j;
  }

  /** The characters of s that are not white space, in order. */
  function Letters(s: seq<char>): (r: string)
    ensures |r| <= |s|
  {
    if s == [] then [] else (if IsSpace(s[0]) then [] else [s[0]]) + Letters(s[1..])
  }

  /**
   * As written, the word read from a stretch of letters and white space is its
   * letters with the white space dropped, and reading stops after the whole stretch.
   */
  lemma {:induction false} SpacedLettersRead(input: seq<char>, i: nat, e: nat)
    requires i <= e <= |input|
    requires forall k | i <= k < e :: IsSpace(input[k]) || IsLower(input[k])
    requires e < |input| ==> !IsSpace(input[e]) && !IsLower(input[e])
    ensures SpacedWordAt(input, i) == (Letters(input[i..e]), e)
    decreases e - i
  {
    if i == e {
      assert SkipSpaces(input, i) == i;
      assert input[i..e] == [];
    } else {
      SpacedLettersRead(input, i + 1, e);
      assert input[i..e][1..] == input[i + 1..e];
      assert input[i..e][0] == input[i];
      if IsSpace(input[i]) {
        assert SkipSpaces(input, i) == SkipSpaces(input, i + 1);
        assert Letters(input[i..e]) == Letters(input[i + 1..e]);
      } else {
        assert SkipSpaces(input, i) == i;
        assert Letters(input[i..e]) == [input[i]] + Letters(input[i + 1..e]);
      }
    }
  }

  /** Exactly the three literal names load, each as its node, and nothing else does. */
  lemma LiteralNamesExactly(word: string, rest: seq<char>)
    requires forall k | 0 <= k < |word| :: IsLower(word[k])
    requires rest == [] || !IsLower(rest[0])
    ensures WordAt(word + rest, 0) == (word, |word|)
    ensures KeywordLoaded(word, |word|).Ok? <==> word == "null" || word == "true" || word == "false"
    ensures word == "null" ==> KeywordLoaded(word, |word|) == Ok((Null, |word|))
    ensures word == "true" ==> KeywordLoaded(word, |word|) == Ok((Bool(true), |word|))
    ensures word == "false" ==> KeywordLoaded(word, |word|) == Ok((Bool(false), |word|))
  {
    WordOfLetters(word, rest);
  }

  /** The word read from a run of letters followed by a non-letter is that run. */
  lemma WordOfLetters(word: string, rest: seq<char>)
    requires forall k | 0 <= k < |word| :: IsLower(word[k])
    requires rest == [] || !IsLower(rest[0])
    ensures WordAt(word + rest, 0) == (word, |word|)
  {
    WordOfLettersFrom(word, rest, 0);
    assert word[0..] == word;
  }

  lemma {:induction false} WordOfLettersFrom(word: string, rest: seq<char>, i: nat)
    requires forall k | 0 <= k < |word| :: IsLower(word[k])
    requires rest == [] || !IsLower(rest[0])
    requires i <= |word|
    ensures WordAt(word + rest, i) == (word[i..], |word|)
    decreases |word| - i
  {
    var input := word + rest;
    if i < |word| {
      WordOfLettersFrom(word, rest, i + 1);
      assert input[i] == word[i];
      assert word[i..] == [word[i]] + word[i + 1..];
    } else {
      assert word[i..] == [];
      assert i == |input| || input[i] == rest[0];
    }
  }

  // ------------------------------------------------------------------
  // Values and nodes
  // ------------------------------------------------------------------

  /**
   * LoadValue: what follows the next non-space character. A comma or closing
   * bracket, or the end of the stream, leaves an empty (null) node and the
   * character unread.
   */
  function ValueAt(input: seq<char>, start: nat): Loaded
    requires start <= |input|
  {
    var j := SkipSpaces(input, start);
    if j == |input| then Ok((Null, j))
    else
      var c := input[j];
      if c == ',' || c == ']' || c == '}' then Ok((Null, j))
      else if IsDigit(c) || c == '-' then NumberNode(NumberAt(input, j))
      else if c == '"' then StringNode(StringAt(input, j + 1))
      else if IsLower(c) then KeywordLoaded(WordAt(input, j).0, WordAt(input, j).1)
      else Err(ParsingError)
  }

  method LoadValue(input: seq<char>, start: nat) returns (r: Loaded)
    requires start <= |input|
    ensures r == ValueAt(input, start)
  {
    var j := SkipSpaces(input, start);
    if j == |input| {
      return Ok((Null, j));
    }
    var c := input[j];
    if c == ',' || c == ']' || c == '}' {
      r := Ok((Null, j));
    } else if IsDigit(c) || c == '-' {
      r := LoadNumber(input, j);
    } else if c == '"' {
      r := LoadString(input, j + 1);
    } else if IsLower(c) {
      r := LoadBoolAndNull(input, j);
    } else {
      r := Err(ParsingError);
    }
  }

  /**
   * What LoadNode finds: a complete value, or the opening bracket of an array
   * or a dict, whose contents LoadArray and LoadDict read from `end` on.
   */
  datatype NodeStart = Value(node: Node, end: nat) | OpenArray(end: nat) | OpenDict(end: nat)

  function NodeAt(input: seq<char>, start: nat): Result<NodeStart, ParsingError>
    requires start <= |input|
  {
    var j := SkipSpaces(input, start);
    if j < |input| && input[j] == '[' then Ok(OpenArray(j + 1))
    else if j < |input| && input[j] == '{' then Ok(OpenDict(j + 1))
    else if j < |input| && (input[j] == ']' || input[j] == '}') then Err(ParsingError)
    else
      var v := if j < |input| && input[j] == '"' then StringNode(StringAt(input, j + 1)) else ValueAt(input, j);
      if v.Err? then Err(v.error) else Ok(Value(v.value.0, v.value.1))
  }

  method LoadNode(input: seq<char>, start: nat) returns (r: Result<NodeStart, ParsingError>)
    requires start <= |input|
    ensures r == NodeAt(input, start)
  {
    var j := SkipSpaces(input, start);
    var v: Loaded;
    if j < |input| && input[j] == '[' {
      return Ok(OpenArray(j + 1));
    } else if j < |input| && input[j] == '{' {
      return Ok(OpenDict(j + 1));
    } else if j < |input| && input[j] == '"' {
      v := LoadString(input, j + 1);
    } else {
      if j < |input| && (input[j] == ']' || input[j] == '}') {
        return Err(ParsingError);
      }
      v := LoadValue(input, j);
    }
    if v.Err? {
      return Err(v.error);
    }
    return Ok(Value(v.value.0, v.value.1));
  }

  /** A closing bracket where a value is expected is rejected, not read as an empty value. */
  lemma ClosingBracketRejected(input: seq<char>, start: nat)
    requires start <= |input|
    requires var j := SkipSpaces(input, start); j < |input| && (input[j] == ']' || input[j] == '}')
    ensures NodeAt(input, start).Err?
    ensures ValueAt(input, start) == Ok((Null, SkipSpaces(input, start)))
  {
  }

  /** A printed string, after any white space, loads back as the same string node. */
  lemma PrintedStringNodeLoads(spaces: seq<char>, s: string, rest: seq<char>)
    requires forall k | 0 <= k < |spaces| :: IsSpace(spaces[k])
    ensures NodeAt(spaces + PrintString(s) + rest, 0) == Ok(Value(Str(s), |spaces| + |PrintString(s)|))
  {
    var input := spaces + PrintString(s) + rest;
    var j := SkipSpaces(input, 0);
    assert input[|spaces|] == '"';
    assert j == |spaces|;
    assert input == spaces + (PrintString(s) + rest);
    PrintedStringLoads(s, rest);
    StringShift(spaces, PrintString(s) + rest, 1);
  }

  /** Reading a string does not depend on what precedes it. */
  lemma {:induction false} StringShift(prefix: seq<char>, input: seq<char>, i: nat)
    requires i <= |input|
    ensures StringAt(prefix + input, |prefix| + i)
         == (if StringAt(input, i).Err? then StringAt(input, i)
             else Ok((StringAt(input, i).value.0, |prefix| + StringAt(input, i).value.1)))
    decreases |input| - i
  {
    var text := prefix + input;
    if i < |input| {
      assert text[|prefix| + i] == input[i];
      if i + 1 < |input| {
        assert text[|prefix| + i + 1] == input[i + 1];
      }
      if input[i] == '\\' && i + 1 < |input| && Unescaped(input[i + 1]).Some? {
        StringShift(prefix, input, i + 2);
      } else if input[i] != '\\' && input[i] != '"' {
        StringShift(prefix, input, i + 1);
      }
    }
  }
}

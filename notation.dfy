/** The two textual notations of a format (src/ltitop/arithmetic/fixed_point/formats.py):
    Q notation `[su]?Q<a>.<b>` for Format(a - signed, -b) and parenthesis
    notation `[su]?(<msb>,<lsb>)`, printed by `to_qnotation`/`to_pnotation`
    and parsed back by `from_qnotation`/`from_pnotation`/`from_notation`. */
module Notation {
  import opened Wrappers
  import opened Errors
  import opened Formats

  // ---- Decimal integers, as `str(int)` prints them and `int(str)` reads them ----

  predicate IsDigit(c: char) {
    '0' <= c <= '9'
  }

  predicate AllDigits(s: string) {
    forall i :: 0 <= i < |s| ==> IsDigit(s[i])
  }

  function DigitChar(d: nat): (c: char)
    requires d < 10
    ensures IsDigit(c)
  {
    (('0' as int) + d) as char
  }

  function DigitValue(c: char): (d: nat)
    requires IsDigit(c)
    ensures d < 10
  {
    (c as int) - ('0' as int)
  }

  /** The decimal digits of n, most significant first, with no leading zeros. */
  function NatToString(n: nat): (s: string)
    ensures |s| >= 1 && AllDigits(s)
  {
    if n < 10 then [DigitChar(n)] else NatToString(n / 10) + [DigitChar(n % 10)]
  }

  /** The number a digit string spells (leading zeros allowed, as `int` allows them). */
  function DigitsValue(s: string): nat
    requires AllDigits(s)
  {
    if |s| == 0 then 0 else DigitsValue(s[..|s| - 1]) * 10 + DigitValue(s[|s| - 1])
  }

  /** `str(n)`: a minus sign for a negative n, never a plus sign. */
  function IntToString(n: int): string {
    if n < 0 then "-" + NatToString(-n) else NatToString(n)
  }

  /** `int(s)` for a string that matched `[+-]?[0-9]+`; None for any other string. */
  function ParseInt(s: string): Option<int> {
    if |s| >= 2 && (s[0] == '+' || s[0] == '-') && AllDigits(s[1..]) then
      var d: int := DigitsValue(s[1..]);
      Some(if s[0] == '-' then -d else d)
    else if |s| >= 1 && AllDigits(s) then
      Some(DigitsValue(s))
    else
      None
  }

  lemma {:induction false} NatToStringRoundTrip(n: nat)
    ensures DigitsValue(NatToString(n)) == n
  {
    var s := NatToString(n);
    if n >= 10 {
      NatToStringRoundTrip(n / 10);
      assert s[..|s| - 1] == NatToString(n / 10);
    }
  }

  /** `int(str(n)) == n`. */
  lemma IntToStringRoundTrip(n: int)
    ensures ParseInt(IntToString(n)) == Some(n)
  {
    var s := IntToString(n);
    if n < 0 {
      NatToStringRoundTrip(-n);
      assert s[1..] == NatToString(-n);
    } else {
      NatToStringRoundTrip(n);
    }
  }

  /** What `str(n)` can contain: digits and, first, a minus sign. */
  predicate Numeral(s: string) {
    |s| >= 1 && (IsDigit(s[0]) || s[0] == '-') && AllDigits(s[1..])
  }

  lemma IntToStringIsNumeral(n: int)
    ensures Numeral(IntToString(n))
  {
    var s := IntToString(n);
    if n < 0 {
      assert s[1..] == NatToString(-n);
    } else {
      assert AllDigits(NatToString(n));
    }
  }

  // ---- Splitting at a separator ----

  /** The position of the first c in s. */
  function IndexOf(s: string, c: char): (r: Option<nat>)
    ensures r.Some? ==> r.value < |s|
  {
    if |s| == 0 then None
    else if s[0] == c then Some(0)
    else match IndexOf(s[1..], c)
      case None => None
      case Some(k) => Some(k + 1)
  }

  /** IndexOf finds the first c, and None means there is none. */
  lemma {:induction false} IndexOfMeans(s: string, c: char)
    ensures var r := IndexOf(s, c);
      && (r.Some? ==> s[r.value] == c && forall i :: 0 <= i < r.value ==> s[i] != c)
      && (r.None? ==> forall i :: 0 <= i < |s| ==> s[i] != c)
  {
    if |s| > 0 && s[0] != c {
      IndexOfMeans(s[1..], c);
      assert forall i :: 1 <= i < |s| ==> s[i] == s[1..][i - 1];
    }
  }

  /** A separator that the first part does not contain is found right after it. */
  lemma IndexOfJoin(a: string, c: char, b: string)
    requires forall i :: 0 <= i < |a| ==> a[i] != c
    ensures IndexOf(a + [c] + b, c) == Some(|a|)
  {
    var s := a + [c] + b;
    assert s[|a|] == c;
    assert forall i :: 0 <= i < |a| ==> s[i] == a[i];
    IndexOfMeans(s, c);
  }

  /** `$` matches at the end or just before a trailing newline. */
  function StripNewline(s: string): string {
    if |s| > 0 && s[|s| - 1] == '\n' then s[..|s| - 1] else s
  }

  /** The optional `[su]` prefix: whether the format is signed, and the rest. */
  function SignPrefix(s: string): (bool, string) {
    if |s| > 0 && (s[0] == 's' || s[0] == 'u') then (s[0] != 'u', s[1..]) else (true, s)
  }

  /** Two numerals around a separator. */
  function ParsePair(s: string, sep: char): Option<(int, int)> {
    match IndexOf(s, sep)
    case None => None
    case Some(k) =>
      match (ParseInt(s[..k]), ParseInt(s[k + 1..]))
      case (Some(a), Some(b)) => Some((a, b))
      case _ => None
  }

  // ---- Parsing ----

  /** `Format.from_qnotation(s)`: `[su]?Q<a>.<b>` gives Format(a - signed, -b, signed).
      ValueError when s does not match, or when the format is invalid. */
  function FromQNotation(s: string): (r: Result<Format>)
    ensures r.Err? ==> r.error == ValueError
  {
    var p := SignPrefix(StripNewline(s));
    QBody(p.0, p.1)
  }

  /** The part of `from_qnotation` after the sign mark. */
  function QBody(signed: bool, rest: string): (r: Result<Format>)
    ensures r.Err? ==> r.error == ValueError
  {
    if |rest| == 0 || rest[0] != 'Q' then Err(ValueError)
    else match ParsePair(rest[1..], '.')
      case None => Err(ValueError)
      case Some(ab) => MakeFormat(ab.0 - SignBit(signed), -ab.1, signed)
  }

  /** `Format.from_pnotation(s)`: `[su]?(<msb>,<lsb>)`. */
  function FromPNotation(s: string): (r: Result<Format>)
    ensures r.Err? ==> r.error == ValueError
  {
    var p := SignPrefix(StripNewline(s));
    PBody(p.0, p.1)
  }

  /** The part of `from_pnotation` after the sign mark. */
  function PBody(signed: bool, rest: string): (r: Result<Format>)
    ensures r.Err? ==> r.error == ValueError
  {
    if |rest| < 2 || rest[0] != '(' || rest[|rest| - 1] != ')' then Err(ValueError)
    else match ParsePair(rest[1..|rest| - 1], ',')
      case None => Err(ValueError)
      case Some(ab) => MakeFormat(ab.0, ab.1, signed)
  }

  /** `Format.from_notation(s)`: Q notation first, then parenthesis notation. */
  function FromNotation(s: string): (r: Result<Format>)
    ensures r.Err? ==> r.error == ValueError
    ensures r.Ok? <==> FromQNotation(s).Ok? || FromPNotation(s).Ok?
  {
    match FromQNotation(s)
    case Ok(f) => Ok(f)
    case Err(_) =>
      match FromPNotation(s)
      case Ok(f) => Ok(f)
      case Err(_) => Err(ValueError)
  }

  // ---- Printing ----

  function UnsignedMark(signed: bool): string {
    if signed then "" else "u"
  }

  /** `to_qnotation()`: Q<msb + signed>.<-lsb>, with a `u` in front when
      unsigned; `from_qnotation` reads the format back. */
  function ToQNotation(f: Format): (r: string)
    ensures FromQNotation(r) == Ok(f)
    ensures r[0] == 'u' <==> !f.signed
  {
    QPrintedRead(UnsignedMark(f.signed) + "Q" + IntToString(f.msb + SignBit(f.signed)) + "." + IntToString(-f.lsb),
      f.signed, f.msb + SignBit(f.signed), -f.lsb, f.msb, f.lsb);
    UnsignedMark(f.signed) + "Q" + IntToString(f.msb + SignBit(f.signed)) + "." + IntToString(-f.lsb)
  }

  /** `to_pnotation()`: (<msb>,<lsb>), with a `u` in front when unsigned;
      `from_pnotation` reads the format back. */
  function ToPNotation(f: Format): (r: string)
    ensures FromPNotation(r) == Ok(f)
    ensures r[0] == 'u' <==> !f.signed
  {
    PPrintedRead(UnsignedMark(f.signed) + "(" + IntToString(f.msb) + "," + IntToString(f.lsb) + ")",
      f.signed, f.msb, f.lsb);
    UnsignedMark(f.signed) + "(" + IntToString(f.msb) + "," + IntToString(f.lsb) + ")"
  }

  // ---- Round trips ----

  /** A numeral ends with a digit. */
  lemma NumeralEnd(a: string)
    requires Numeral(a)
    ensures IsDigit(a[|a| - 1]) || a == "-"
  {
    if |a| > 1 {
      assert a[|a| - 1] == a[1..][|a| - 2];
    }
  }

  /** Two numerals joined by a separator that is neither a digit nor a
      minus sign split back into the two numbers. */
  lemma ParsePairOf(a: string, sep: char, b: string)
    requires Numeral(a) && ParseInt(a).Some? && ParseInt(b).Some?
    requires !IsDigit(sep) && sep != '-'
    ensures ParsePair(a + [sep] + b, sep) == Some((ParseInt(a).value, ParseInt(b).value))
  {
    forall i | 0 <= i < |a|
      ensures a[i] != sep
    {
      if i > 0 {
        assert a[i] == a[1..][i - 1];
      }
    }
    IndexOfJoin(a, sep, b);
    var s := a + [sep] + b;
    assert s[..|a|] == a && s[|a| + 1..] == b;
  }

  /** The `u` mark in front of a body that starts with neither `s` nor `u`
      is read back as the signedness, with nothing to strip at the end. */
  lemma MarkedBody(signed: bool, mark: string, body: string)
    requires mark == UnsignedMark(signed)
    requires |body| >= 1 && body[0] != 's' && body[0] != 'u' && body[|body| - 1] != '\n'
    ensures SignPrefix(StripNewline(mark + body)) == (signed, body)
  {
    var s := mark + body;
    assert s[|s| - 1] == body[|body| - 1];
    assert StripNewline(s) == s;
    if signed {
      assert s == body;
    } else {
      assert s[0] == 'u' && s[1..] == body;
    }
  }

  /** `from_qnotation` strips the sign mark and reads the body after it. */
  lemma ReadQ(signed: bool, s: string, body: string, f: Result<Format>)
    requires s == UnsignedMark(signed) + body && QBody(signed, body) == f
    requires |body| >= 1 && body[0] == 'Q' && body[|body| - 1] != '\n'
    ensures FromQNotation(s) == f
  {
    MarkedBody(signed, UnsignedMark(signed), body);
  }

  /** Regrouping the printed Q notation around its body. */
  lemma QJoin(mark: string, a: string, b: string)
    ensures mark + "Q" + a + "." + b == mark + ("Q" + (a + ['.'] + b))
  {
  }

  /** The body of a printed Q notation reads back as the two printed integers. */
  lemma PrintedQBody(signed: bool, x: int, y: int, body: string)
    requires body == "Q" + (IntToString(x) + ['.'] + IntToString(y))
    ensures |body| >= 1 && body[0] == 'Q' && body[|body| - 1] != '\n'
    ensures QBody(signed, body) == MakeFormat(x - SignBit(signed), -y, signed)
  {
    var b := IntToString(y);
    var pair := IntToString(x) + ['.'] + b;
    PrintedPair(x, '.', y);
    QBodyOfPair(signed, pair, x, y);
    PrintedEnd(y);
    assert body[|body| - 1] == b[|b| - 1];
  }

  /** Two printed integers around a separator split back into the integers. */
  lemma PrintedPair(x: int, sep: char, y: int)
    requires !IsDigit(sep) && sep != '-'
    ensures ParsePair(IntToString(x) + [sep] + IntToString(y), sep) == Some((x, y))
  {
    IntToStringIsNumeral(x);
    IntToStringRoundTrip(x);
    IntToStringRoundTrip(y);
    ParsePairOf(IntToString(x), sep, IntToString(y));
  }

  lemma QBodyOfPair(signed: bool, pair: string, x: int, y: int)
    requires ParsePair(pair, '.') == Some((x, y))
    ensures QBody(signed, "Q" + pair) == MakeFormat(x - SignBit(signed), -y, signed)
  {
    assert ("Q" + pair)[1..] == pair;
  }

  /** How `from_pnotation` reads a marked parenthesised pair of numerals. */
  lemma ReadP(signed: bool, mark: string, a: string, b: string)
    requires mark == UnsignedMark(signed)
    requires Numeral(a) && ParseInt(a).Some? && ParseInt(b).Some?
    ensures FromPNotation(mark + "(" + a + "," + b + ")") ==
      MakeFormat(ParseInt(a).value, ParseInt(b).value, signed)
  {
    var pair := a + [','] + b;
    var body := "(" + pair + ")";
    assert mark + "(" + a + "," + b + ")" == mark + body;
    MarkedBody(signed, mark, body);
    ParsePairOf(a, ',', b);
    assert body[1..|body| - 1] == pair;
  }

  /** Printing two integers in Q notation and reading them back. */
  lemma QPrintedRead(s: string, signed: bool, x: int, y: int, msb: int, lsb: int)
    requires s == UnsignedMark(signed) + "Q" + IntToString(x) + "." + IntToString(y)
    requires msb == x - SignBit(signed) && lsb == -y
    ensures FromQNotation(s) == MakeFormat(msb, lsb, signed)
  {
    var a, b := IntToString(x), IntToString(y);
    var body := "Q" + (a + ['.'] + b);
    QJoin(UnsignedMark(signed), a, b);
    PrintedQBody(signed, x, y, body);
    ReadQ(signed, s, body, MakeFormat(msb, lsb, signed));
  }

  lemma QNotationRoundTrip(f: Format)
    ensures FromQNotation(ToQNotation(f)) == Ok(f)
  {
    QPrintedRead(ToQNotation(f), f.signed, f.msb + SignBit(f.signed), -f.lsb, f.msb, f.lsb);
  }

  /** Printing two integers in parenthesis notation and reading them back. */
  lemma PPrintedRead(s: string, signed: bool, msb: int, lsb: int)
    requires s == UnsignedMark(signed) + "(" + IntToString(msb) + "," + IntToString(lsb) + ")"
    ensures FromPNotation(s) == MakeFormat(msb, lsb, signed)
  {
    IntToStringIsNumeral(msb);
    IntToStringRoundTrip(msb);
    IntToStringRoundTrip(lsb);
    ReadP(signed, UnsignedMark(signed), IntToString(msb), IntToString(lsb));
  }

  lemma PNotationRoundTrip(f: Format)
    ensures FromPNotation(ToPNotation(f)) == Ok(f)
  {
    PPrintedRead(ToPNotation(f), f.signed, f.msb, f.lsb);
  }

  /** A printed integer ends with a digit, so never with a newline. */
  lemma PrintedEnd(n: int)
    ensures var s := IntToString(n); |s| >= 1 && s[|s| - 1] != '\n'
  {
    IntToStringIsNumeral(n);
    NumeralEnd(IntToString(n));
  }

  /** `from_notation` reads back either printed form. */
  lemma NotationRoundTrip(f: Format)
    ensures FromNotation(ToQNotation(f)) == Ok(f)
    ensures FromNotation(ToPNotation(f)) == Ok(f)
  {
    QNotationRoundTrip(f);
    PNotationRoundTrip(f);
    var s := SignPrefix(StripNewline(ToPNotation(f))).1;
    assert s[0] == '(';
  }

  lemma PrintSignedQExample()
    ensures ToQNotation(Format(7, 0, true)) == "Q8.0"
  {
    assert IntToString(8) == "8" && IntToString(0) == "0";
  }

  lemma PrintSignedPExample()
    ensures ToPNotation(Format(7, 0, true)) == "(7,0)"
  {
    assert IntToString(7) == "7" && IntToString(0) == "0";
  }

  lemma PrintUnsignedQExample()
    ensures ToQNotation(Format(8, 2, false)) == "uQ8.-2"
  {
    assert IntToString(8) == "8" && IntToString(-2) == "-2";
  }

  lemma PrintUnsignedPExample()
    ensures ToPNotation(Format(8, 2, false)) == "u(8,2)"
  {
    assert IntToString(8) == "8" && IntToString(2) == "2";
  }

  lemma ParseQExample()
    ensures FromNotation("Q3.-1") == Ok(Format(2, 1, true))
  {
    QPrintedRead("Q3.-1", true, 3, -1, 2, 1);
  }

  /** An unsigned parenthesis notation is not taken for a Q notation. */
  lemma ParsePExample()
    ensures FromNotation("u(4,2)") == Ok(Format(4, 2, false))
  {
    PPrintedRead("u(4,2)", false, 4, 2);
    assert FromQNotation("u(4,2)").Err? by {
      assert SignPrefix(StripNewline("u(4,2)")).1[0] != 'Q';
    }
  }

  /** A trailing newline is accepted. */
  lemma ParseNewlineExample()
    ensures FromNotation("Q1.7\n") == Ok(Format(0, -7, true))
  {
    assert StripNewline("Q1.7\n") == "Q1.7";
    QPrintedRead("Q1.7", true, 1, 7, 0, -7);
  }

  /** Trailing garbage is not. */
  lemma ParseGarbageExample()
    ensures FromNotation("Q1.7x").Err?
  {
    assert ParseInt("7x").None?;
    assert IndexOf("1.7x", '.') == Some(1);
  }
}

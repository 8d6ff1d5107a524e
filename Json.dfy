/** The slice of JSON the road tools rely on: arrays of numbers, written by
    `JSON.stringify` (the road graph's vertex identifiers) and read back by
    `JSON.parse` (the road-point decoder).

    A JavaScript number is modelled by the decimal numeral `JSON.stringify`
    prints for it: an optional minus sign, the integer digits without
    leading zeros, and the fraction digits without trailing zeros. Two
    numbers are equal exactly when those numerals are. */
module Json {
  import opened Wrappers

  type Digit = d: int | 0 <= d <= 9

  /** A decimal numeral; `Value` gives the number it denotes. */
  datatype Decimal = Decimal(negative: bool, intDigits: seq<Digit>, fracDigits: seq<Digit>)

  /** The numerals `JSON.stringify` prints: at least one integer digit, no
      leading zero unless the integer part is 0, no trailing zero in the
      fraction, and no "-0". */
  predicate Canonical(d: Decimal) {
    && |d.intDigits| >= 1
    && (|d.intDigits| > 1 ==> d.intDigits[0] != 0)
    && (|d.fracDigits| > 0 ==> d.fracDigits[|d.fracDigits| - 1] != 0)
    && !(d.negative && d.intDigits == [0] && d.fracDigits == [])
  }

  /** A JavaScript number, as the numeral it is printed as. */
  type Number = d: Decimal | Canonical(d) witness Decimal(false, [0], [])

  datatype ParseError = SyntaxError

  // ---------------------------------------------------------------------
  // Digits and the numbers they denote

  predicate IsDigitChar(c: char) {
    '0' <= c <= '9'
  }

  function DigitChar(d: Digit): (c: char)
    ensures IsDigitChar(c)
  {
    ('0' as int + d) as char
  }

  function CharDigit(c: char): (d: Digit)
    requires IsDigitChar(c)
    ensures DigitChar(d) == c
  {
    c as int - '0' as int
  }

  function DigitChars(ds: seq<Digit>): (s: string)
    ensures |s| == |ds|
    ensures forall i :: 0 <= i < |ds| ==> IsDigitChar(s[i]) && CharDigit(s[i]) == ds[i]
  {
    seq(|ds|, i requires 0 <= i < |ds| => DigitChar(ds[i]))
  }

  function IntValue(ds: seq<Digit>): nat {
    if ds == [] then 0 else IntValue(ds[..|ds| - 1]) * 10 + ds[|ds| - 1]
  }

  function FracValue(ds: seq<Digit>): real {
    if ds == [] then 0.0 else (ds[0] as real + FracValue(ds[1..])) / 10.0
  }

  /** The number a numeral denotes. */
  function Value(d: Decimal): real {
    var magnitude := IntValue(d.intDigits) as real + FracValue(d.fracDigits);
    if d.negative then -magnitude else magnitude
  }

  // ---------------------------------------------------------------------
  // JSON.stringify

  /** How `JSON.stringify` prints one number. */
  function NumberToString(d: Number): string {
    SignText(d.negative) + DigitChars(d.intDigits) + FractionText(d.fracDigits)
  }

  function SignText(negative: bool): string {
    if negative then "-" else ""
  }

  function FractionText(ds: seq<Digit>): string {
    if ds == [] then "" else "." + DigitChars(ds)
  }

  function JoinNumbers(xs: seq<Number>): string {
    if xs == [] then ""
    else if |xs| == 1 then NumberToString(xs[0])
    else NumberToString(xs[0]) + "," + JoinNumbers(xs[1..])
  }

  /** `JSON.stringify` of an array of numbers: `[x0,x1,...]`, no spaces. */
  function Stringify(xs: seq<Number>): string {
    "[" + JoinNumbers(xs) + "]"
  }

  // ---------------------------------------------------------------------
  // JSON.parse

  /** The longest run of digit characters at the head of `s`, and what follows it. */
  function TakeDigits(s: string): (r: (seq<Digit>, string))
    ensures |r.0| <= |s| && r.1 == s[|r.0|..]
    ensures s != [] && IsDigitChar(s[0]) ==> r.0 != [] && r.0[0] == CharDigit(s[0])
  {
    if s != [] && IsDigitChar(s[0]) then
      var (ds, rest) := TakeDigits(s[1..]);
      ([CharDigit(s[0])] + ds, rest)
    else
      ([], s)
  }

  /** Drops the zeros at the end of a fraction: "1.50" denotes 1.5. */
  function StripTrailingZeros(ds: seq<Digit>): (r: seq<Digit>)
    ensures |r| <= |ds| && r == ds[..|r|]
    ensures r != [] ==> r[|r| - 1] != 0
    ensures forall i :: |r| <= i < |ds| ==> ds[i] == 0
  {
    if ds != [] && ds[|ds| - 1] == 0 then StripTrailingZeros(ds[..|ds| - 1]) else ds
  }

  /** The integer part of a JSON number: a lone `0`, or a digit run not
      starting with 0. */
  function ParseIntDigits(s: string): (r: Option<(seq<Digit>, string)>)
    ensures r.Some? ==> |r.value.0| >= 1 && |r.value.1| < |s|
    ensures r.Some? && |r.value.0| > 1 ==> r.value.0[0] != 0
  {
    if s == [] || !IsDigitChar(s[0]) then None
    else if s[0] == '0' then Some(([0], s[1..]))
    else
      var (ds, rest) := TakeDigits(s);
      Some((ds, rest))
  }

  /** The optional fraction of a JSON number: `.` and at least one digit. */
  function ParseFraction(s: string): (r: Option<(seq<Digit>, string)>)
    ensures r.Some? ==> |r.value.1| <= |s|
  {
    if s != [] && s[0] == '.' then
      var (ds, rest) := TakeDigits(s[1..]);
      if ds == [] then None else Some((ds, rest))
    else Some(([], s))
  }

  /** Reads one JSON number (without exponent) at the head of `s`:
      `-?(0|[1-9][0-9]*)(.[0-9]+)?`, and returns it with what follows it.
      The numeral is brought to canonical form; "-0" reads as 0. */
  function ParseNumber(s: string): (r: Result<(Number, string), ParseError>)
    ensures r.Success? ==> |r.value.1| < |s|
  {
    var negative := s != [] && s[0] == '-';
    var s1 := if negative then s[1..] else s;
    match ParseIntDigits(s1)
    case None => Failure(SyntaxError)
    case Some((intDigits, s2)) =>
      match ParseFraction(s2)
      case None => Failure(SyntaxError)
      case Some((fracDigits, s3)) =>
        var frac := StripTrailingZeros(fracDigits);
        var d := Decimal(negative && !(intDigits == [0] && frac == []), intDigits, frac);
        Success((d, s3))
  }

  /** The elements of an array after its `[`, up to and including the `]`. */
  function ParseElements(s: string): (r: Result<seq<Number>, ParseError>)
    decreases |s|
  {
    match ParseNumber(s)
    case Failure(e) => Failure(e)
    case Success((x, rest)) =>
      if rest == "]" then Success([x])
      else if rest != [] && rest[0] == ',' then
        match ParseElements(rest[1..])
        case Failure(e) => Failure(e)
        case Success(xs) => Success([x] + xs)
      else Failure(SyntaxError)
  }

  /** `JSON.parse` of a text that must hold an array of numbers, without
      white space. */
  function Parse(s: string): (r: Result<seq<Number>, ParseError>) {
    if s == "[]" then Success([])
    else if s != [] && s[0] == '[' then ParseElements(s[1..])
    else Failure(SyntaxError)
  }

  // ---------------------------------------------------------------------
  // Round trip and injectivity

  lemma {:induction false} DigitCharsInjective(xs: seq<Digit>, ys: seq<Digit>)
    requires DigitChars(xs) == DigitChars(ys)
    ensures xs == ys
  {
    assert |xs| == |ys|;
    forall i | 0 <= i < |xs| ensures xs[i] == ys[i] {
      assert CharDigit(DigitChars(xs)[i]) == xs[i];
    }
  }

  /** A maximal digit run followed by a non-digit is read back exactly. */
  lemma {:induction false} TakeDigitsOf(ds: seq<Digit>, rest: string)
    requires rest == [] || !IsDigitChar(rest[0])
    ensures TakeDigits(DigitChars(ds) + rest) == (ds, rest)
  {
    var s := DigitChars(ds) + rest;
    if ds == [] {
      assert s == rest;
    } else {
      assert s[0] == DigitChar(ds[0]) && IsDigitChar(s[0]);
      assert s[1..] == DigitChars(ds[1..]) + rest;
      TakeDigitsOf(ds[1..], rest);
      assert [ds[0]] + ds[1..] == ds;
    }
  }

  lemma StripCanonicalFraction(ds: seq<Digit>)
    requires ds != [] ==> ds[|ds| - 1] != 0
    ensures StripTrailingZeros(ds) == ds
  {
  }

  lemma IntDigitsRoundTrip(ds: seq<Digit>, rest: string)
    requires |ds| >= 1 && (|ds| > 1 ==> ds[0] != 0)
    requires rest == [] || !IsDigitChar(rest[0])
    ensures ParseIntDigits(DigitChars(ds) + rest) == Some((ds, rest))
  {
    var s := DigitChars(ds) + rest;
    assert s[0] == DigitChars(ds)[0] && CharDigit(s[0]) == ds[0];
    if s[0] == '0' {
      assert ds == [0];
      assert s[1..] == rest;
    } else {
      TakeDigitsOf(ds, rest);
    }
  }

  lemma FractionTextDot(ds: seq<Digit>, rest: string)
    requires ds != []
    ensures FractionText(ds) + rest == ['.'] + (DigitChars(ds) + rest)
  {
  }

  lemma FractionRoundTrip(ds: seq<Digit>, rest: string)
    requires rest == [] || (!IsDigitChar(rest[0]) && rest[0] != '.')
    ensures ParseFraction(FractionText(ds) + rest) == Some((ds, rest))
  {
    if ds == [] {
      assert FractionText(ds) + rest == rest;
    } else {
      FractionTextDot(ds, rest);
      TakeDigitsOf(ds, rest);
      assert (['.'] + (DigitChars(ds) + rest))[1..] == DigitChars(ds) + rest;
    }
  }

  /** The sign of a numeral is read off its first character. */
  lemma SignRoundTrip(negative: bool, s1: string)
    requires s1 != [] && IsDigitChar(s1[0])
    ensures (SignText(negative) + s1 != [] && (SignText(negative) + s1)[0] == '-') == negative
    ensures (if negative then (SignText(negative) + s1)[1..] else SignText(negative) + s1) == s1
  {
    if negative {
      assert (SignText(negative) + s1)[1..] == s1;
    } else {
      assert SignText(negative) + s1 == s1;
    }
  }

  /** What follows the integer digits of a printed number. */
  lemma FractionTextHead(ds: seq<Digit>, rest: string)
    requires rest != [] && (rest[0] == ',' || rest[0] == ']')
    ensures FractionText(ds) + rest != []
    ensures (FractionText(ds) + rest)[0] in {'.', ',', ']'}
  {
    if ds == [] {
      assert FractionText(ds) + rest == rest;
    } else {
      FractionTextDot(ds, rest);
    }
  }

  /** A printed number, cut into its sign, integer digits and the rest. */
  lemma NumberTextParts(d: Number, rest: string)
    ensures NumberToString(d) + rest
      == SignText(d.negative) + (DigitChars(d.intDigits) + (FractionText(d.fracDigits) + rest))
    ensures IsDigitChar((DigitChars(d.intDigits) + (FractionText(d.fracDigits) + rest))[0])
  {
    assert (DigitChars(d.intDigits) + (FractionText(d.fracDigits) + rest))[0] == DigitChars(d.intDigits)[0];
  }

  /** `ParseNumber` put together from its parts. */
  lemma ParseNumberOfParts(s: string, s1: string, intDigits: seq<Digit>, s2: string, fracDigits: seq<Digit>, rest: string)
    requires (if s != [] && s[0] == '-' then s[1..] else s) == s1
    requires ParseIntDigits(s1) == Some((intDigits, s2))
    requires ParseFraction(s2) == Some((fracDigits, rest))
    requires StripTrailingZeros(fracDigits) == fracDigits
    ensures ParseNumber(s).Success?
    ensures ParseNumber(s).value.1 == rest
    ensures ParseNumber(s).value.0 ==
      Decimal(s != [] && s[0] == '-' && !(intDigits == [0] && fracDigits == []), intDigits, fracDigits)
  {
  }

  /** Reading a printed number back gives the same number, provided the
      text goes on with a separator. */
  lemma NumberRoundTrip(d: Number, rest: string)
    requires rest != [] && (rest[0] == ',' || rest[0] == ']')
    ensures ParseNumber(NumberToString(d) + rest) == Success((d, rest))
  {
    var s2 := FractionText(d.fracDigits) + rest;
    var s1 := DigitChars(d.intDigits) + s2;
    NumberTextParts(d, rest);
    SignRoundTrip(d.negative, s1);
    FractionTextHead(d.fracDigits, rest);
    IntDigitsRoundTrip(d.intDigits, s2);
    FractionRoundTrip(d.fracDigits, rest);
    StripCanonicalFraction(d.fracDigits);
    ParseNumberOfParts(NumberToString(d) + rest, s1, d.intDigits, s2, d.fracDigits, rest);
  }

  /** The last element of an array. */
  lemma ParseElementsLast(s: string, x: Number)
    requires ParseNumber(s) == Success((x, "]"))
    ensures ParseElements(s) == Success([x])
  {
  }

  /** An element followed by a comma and the remaining elements. */
  lemma ParseElementsCons(s: string, x: Number, rest: string, xs: seq<Number>)
    requires ParseNumber(s) == Success((x, rest))
    requires rest != [] && rest[0] == ','
    requires ParseElements(rest[1..]) == Success(xs)
    ensures ParseElements(s) == Success([x] + xs)
  {
    assert rest != "]";
  }

  lemma CommaText(tail: string)
    ensures "," + tail != [] && ("," + tail)[0] == ',' && ("," + tail)[1..] == tail
  {
  }

  /** The text of a one-element list. */
  lemma JoinNumbersOne(xs: seq<Number>)
    requires |xs| == 1
    ensures JoinNumbers(xs) + "]" == NumberToString(xs[0]) + "]"
    ensures xs == [xs[0]]
  {
  }

  /** The text of a longer list, cut after its first element. */
  lemma JoinNumbersMore(xs: seq<Number>)
    requires |xs| > 1
    ensures JoinNumbers(xs) + "]" == NumberToString(xs[0]) + ("," + (JoinNumbers(xs[1..]) + "]"))
    ensures xs == [xs[0]] + xs[1..]
  {
    var a := NumberToString(xs[0]);
    var b := JoinNumbers(xs[1..]);
    assert JoinNumbers(xs) == a + "," + b;
    AppendAssociative(a, ",", b, "]");
  }

  lemma AppendAssociative(a: string, b: string, c: string, d: string)
    ensures a + b + c + d == a + (b + (c + d))
  {
  }

  lemma {:induction false} ElementsRoundTrip(xs: seq<Number>)
    requires xs != []
    ensures ParseElements(JoinNumbers(xs) + "]") == Success(xs)
  {
    if |xs| == 1 {
      JoinNumbersOne(xs);
      NumberRoundTrip(xs[0], "]");
      ParseElementsLast(JoinNumbers(xs) + "]", xs[0]);
    } else {
      JoinNumbersMore(xs);
      var tail := JoinNumbers(xs[1..]) + "]";
      CommaText(tail);
      NumberRoundTrip(xs[0], "," + tail);
      ElementsRoundTrip(xs[1..]);
      ParseElementsCons(JoinNumbers(xs) + "]", xs[0], "," + tail, xs[1..]);
    }
  }

  /** The JSON text of a non-empty array starts with its bracket and a
      digit or minus sign. */
  lemma StringifyParts(xs: seq<Number>)
    requires xs != []
    ensures Stringify(xs) == ['['] + (JoinNumbers(xs) + "]")
    ensures Stringify(xs) != "[]"
  {
    assert JoinNumbers(xs)[0] == NumberToString(xs[0])[0];
    if xs[0].negative {
      assert NumberToString(xs[0])[0] == '-';
    } else {
      assert NumberToString(xs[0])[0] == DigitChars(xs[0].intDigits)[0];
    }
    assert Stringify(xs)[1] == JoinNumbers(xs)[0];
  }

  /** `JSON.parse(JSON.stringify(xs))` gives back `xs`. */
  lemma ParseStringify(xs: seq<Number>)
    ensures Parse(Stringify(xs)) == Success(xs)
  {
    if xs == [] {
      assert Stringify(xs) == "[]";
    } else {
      ElementsRoundTrip(xs);
      StringifyParts(xs);
      assert Stringify(xs)[1..] == JoinNumbers(xs) + "]";
    }
  }

  /** Printing is injective: two arrays print alike exactly when they are
      equal. */
  lemma StringifyInjective(xs: seq<Number>, ys: seq<Number>)
    ensures Stringify(xs) == Stringify(ys) <==> xs == ys
  {
    ParseStringify(xs);
    ParseStringify(ys);
  }
}

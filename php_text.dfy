/** PHP's string semantics as the backend endpoints use them: trim(), empty(),
    strtolower(), the string and (int) conversions of decoded JSON values,
    isset() and the ?? operator on a decoded request. */
module PhpText {

  /** The characters PHP's trim() strips by default: space, tab, LF, CR, NUL, VT. */
  predicate IsTrimChar(c: char) {
    c == ' ' || c == '\t' || c == '\n' || c == '\r' || c == '\0' || c == '\U{B}'
  }

  /** A string with no strippable character at either end. */
  predicate IsTrimmed(s: string) {
    s == [] || (!IsTrimChar(s[0]) && !IsTrimChar(s[|s| - 1]))
  }

  function TrimLeft(s: string): (r: string)
    ensures |r| <= |s| && r == s[|s| - |r|..]
    ensures r == [] || !IsTrimChar(r[0])
    ensures forall i :: 0 <= i < |s| - |r| ==> IsTrimChar(s[i])
  {
    if s != [] && IsTrimChar(s[0]) then TrimLeft(s[1..]) else s
  }

  function TrimRight(s: string): (r: string)
    ensures |r| <= |s| && r == s[..|r|]
    ensures r == [] || !IsTrimChar(r[|r| - 1])
    ensures forall i :: |r| <= i < |s| ==> IsTrimChar(s[i])
  {
    if s != [] && IsTrimChar(s[|s| - 1]) then TrimRight(s[..|s| - 1]) else s
  }

  /** r is the infix of s starting at i, and everything cut away on either
      side is strippable. */
  predicate CutsTo(s: string, i: int, r: string) {
    && 0 <= i <= |s| - |r|
    && r == s[i..i + |r|]
    && (forall j :: 0 <= j < i ==> IsTrimChar(s[j]))
    && (forall j :: i + |r| <= j < |s| ==> IsTrimChar(s[j]))
  }

  /** PHP trim($s): strips the strippable characters at both ends. */
  function Trim(s: string): (r: string)
    ensures IsTrimmed(r)
  {
    TrimRight(TrimLeft(s))
  }

  /** What trim() returns is an infix of its argument, and everything it cut
      away is strippable. */
  lemma TrimCutsAway(s: string)
    ensures CutsTo(s, |s| - |TrimLeft(s)|, Trim(s))
  {
    var l := TrimLeft(s);
    PrefixOfSuffix(s, |s| - |l|, l, TrimRight(l));
  }

  lemma PrefixOfSuffix(s: string, i: int, l: string, r: string)
    requires 0 <= i <= |s| && l == s[i..]
    requires |r| <= |l| && r == l[..|r|]
    requires forall j :: 0 <= j < i ==> IsTrimChar(s[j])
    requires forall j :: |r| <= j < |l| ==> IsTrimChar(l[j])
    ensures CutsTo(s, i, r)
  {
    forall j | i + |r| <= j < |s| ensures IsTrimChar(s[j]) {
      assert s[j] == l[j - i];
    }
  }

  lemma {:induction false} TrimLeftOfTrimmed(s: string)
    requires s == [] || !IsTrimChar(s[0])
    ensures TrimLeft(s) == s
  {
  }

  lemma {:induction false} TrimRightOfTrimmed(s: string)
    requires s == [] || !IsTrimChar(s[|s| - 1])
    ensures TrimRight(s) == s
  {
  }

  /** trim() leaves an already trimmed string alone; in particular it is idempotent. */
  lemma {:induction false} TrimOfTrimmed(s: string)
    requires IsTrimmed(s)
    ensures Trim(s) == s
  {
    TrimLeftOfTrimmed(s);
    TrimRightOfTrimmed(s);
  }

  lemma TrimIdempotent(s: string)
    ensures Trim(Trim(s)) == Trim(s)
  {
    TrimOfTrimmed(Trim(s));
  }

  /** PHP empty() on a string: true for "" and for "0". */
  predicate IsEmpty(s: string) {
    s == "" || s == "0"
  }

  /** empty(trim($s)): the test every endpoint applies to a mandatory field. */
  predicate IsBlank(s: string) {
    IsEmpty(Trim(s))
  }

  // ----- decimal digits -----

  function DigitChar(d: nat): (c: char)
    requires d < 10
    ensures '0' <= c <= '9'
  {
    (48 + d) as char
  }

  function DigitValue(c: char): (d: nat)
    requires '0' <= c <= '9'
    ensures d < 10 && DigitChar(d) == c
  {
    (c as int) - 48
  }

  predicate IsDigit(c: char) {
    '0' <= c <= '9'
  }

  /** Decimal spelling of a natural number, without leading zeros. */
  function NaturalText(n: nat): (r: string)
    ensures |r| >= 1 && forall i :: 0 <= i < |r| ==> IsDigit(r[i])
    ensures n >= 10 ==> |r| >= 2
    ensures (r[0] == '0') <==> n == 0
  {
    if n < 10 then [DigitChar(n)] else NaturalText(n / 10) + [DigitChar(n % 10)]
  }

  /** PHP's string conversion of an int. */
  function IntText(i: int): (r: string)
    ensures |r| >= 1 && IsTrimmed(r)
    ensures IsEmpty(r) <==> i == 0
  {
    if i < 0 then "-" + NaturalText(-i) else NaturalText(i)
  }

  // ----- decoded JSON values -----

  /** A scalar of a decoded JSON request (json_decode with assoc = true). */
  datatype Value = Str(s: string) | Int(i: int) | Bool(b: bool) | Null

  /** A decoded JSON object. */
  type Input = map<string, Value>

  /** PHP's string conversion of a value, as trim() performs it. */
  function Text(v: Value): string {
    match v
    case Str(s) => s
    case Int(i) => IntText(i)
    case Bool(b) => if b then "1" else ""
    case Null => ""
  }

  /** isset($input[$key]): present and not null. */
  predicate Isset(input: Input, key: string) {
    key in input && !input[key].Null?
  }

  /** trim($input[$key] ?? ''): the trimmed text of a field, "" when unset. */
  function FieldText(input: Input, key: string): (r: string)
    ensures IsTrimmed(r)
  {
    if Isset(input, key) then Trim(Text(input[key])) else ""
  }

  /** isset($input[$key]) ? trim($input[$key]) : $default */
  function OptionalText(input: Input, key: string, default: string): string {
    if Isset(input, key) then FieldText(input, key) else default
  }

  /** The characters PHP skips before a number in a numeric string. */
  predicate IsNumericSpace(c: char) {
    c == ' ' || c == '\t' || c == '\n' || c == '\r' || c == '\U{B}' || c == '\U{C}'
  }

  function SkipNumericSpace(s: string): (r: string)
    ensures |r| <= |s| && r == s[|s| - |r|..]
    ensures r == [] || !IsNumericSpace(r[0])
  {
    if s != [] && IsNumericSpace(s[0]) then SkipNumericSpace(s[1..]) else s
  }

  predicate AllDigits(s: string) {
    forall i :: 0 <= i < |s| ==> IsDigit(s[i])
  }

  /** The number a run of digits spells. */
  function Read(s: string): (n: nat)
    requires AllDigits(s)
    decreases |s|
  {
    if s == [] then 0 else Read(s[..|s| - 1]) * 10 + DigitValue(s[|s| - 1])
  }

  lemma ReadTwo(s: string)
    requires |s| == 2 && AllDigits(s)
    ensures Read(s) == DigitValue(s[0]) * 10 + DigitValue(s[1])
  {
    var h := s[..1];
    assert h == [s[0]] && h[..0] == [];
    assert Read(h) == DigitValue(s[0]);
    assert Read(s) == Read(h) * 10 + DigitValue(s[1]);
  }

  function Pow10(k: nat): (p: nat)
    ensures p >= 1
  {
    if k == 0 then 1 else 10 * Pow10(k - 1)
  }

  /** A leading digit is worth its value times ten to the number of digits after it. */
  lemma {:induction false} ReadCons(c: char, u: string)
    requires IsDigit(c) && AllDigits(u)
    ensures AllDigits([c] + u)
    ensures Read([c] + u) == DigitValue(c) * Pow10(|u|) + Read(u)
    decreases |u|
  {
    var s := [c] + u;
    ConsAllDigits(c, u);
    if u == [] {
      assert s == [c] && s[..0] == [];
    } else {
      var v := u[..|u| - 1];
      assert s[..|s| - 1] == [c] + v;
      ReadCons(c, v);
      ShiftDigit(DigitValue(c), Pow10(|v|), Read(v), DigitValue(u[|u| - 1]));
    }
  }

  lemma ConsAllDigits(c: char, u: string)
    requires IsDigit(c) && AllDigits(u)
    ensures AllDigits([c] + u)
  {
    var s := [c] + u;
    forall i | 0 <= i < |s| ensures IsDigit(s[i]) {
      if i > 0 { assert s[i] == u[i - 1]; }
    }
  }

  lemma ShiftDigit(d: nat, p: nat, v: nat, e: nat)
    ensures (d * p + v) * 10 + e == d * (10 * p) + (v * 10 + e)
  {
  }

  /** The value of the longest run of digits at the start of s, with its
      length; acc is the value of the digits already read. */
  function DigitsPrefix(s: string, acc: nat): (r: (nat, nat))
    ensures r.1 <= |s|
    ensures forall i :: 0 <= i < r.1 ==> IsDigit(s[i])
    ensures r.1 == |s| || !IsDigit(s[r.1])
    ensures AllDigits(s[..r.1]) && r.0 == acc * Pow10(r.1) + Read(s[..r.1])
    decreases |s|
  {
    if s != [] && IsDigit(s[0]) then
      var t := DigitsPrefix(s[1..], acc * 10 + DigitValue(s[0]));
      DigitsPrefixStep(s, acc, t);
      (t.0, t.1 + 1)
    else (acc, 0)
  }

  /** One digit more: the value read from s[1..] with acc * 10 + s[0] already
      read is the value of s with acc already read. */
  lemma DigitsPrefixStep(s: string, acc: nat, t: (nat, nat))
    requires s != [] && IsDigit(s[0]) && t.1 <= |s| - 1
    requires AllDigits(s[1..][..t.1])
    requires t.0 == (acc * 10 + DigitValue(s[0])) * Pow10(t.1) + Read(s[1..][..t.1])
    ensures AllDigits(s[..t.1 + 1])
    ensures t.0 == acc * Pow10(t.1 + 1) + Read(s[..t.1 + 1])
  {
    var u := s[1..][..t.1];
    assert s[..t.1 + 1] == [s[0]] + u;
    ReadCons(s[0], u);
    ScaleDigit(acc, DigitValue(s[0]), Pow10(t.1));
  }

  lemma ScaleDigit(acc: nat, d: nat, p: nat)
    ensures (acc * 10 + d) * p == acc * (10 * p) + d * p
  {
  }

  /** The range of a PHP int on a 64-bit build. */
  const PhpIntMax: int := 0x7FFF_FFFF_FFFF_FFFF
  const PhpIntMin: int := -0x8000_0000_0000_0000

  /** A number outside the int range saturates at its nearest end, as PHP's
      string-to-int conversion does. */
  function Saturate(n: int): (r: int)
    ensures PhpIntMin <= r <= PhpIntMax
    ensures PhpIntMin <= n <= PhpIntMax ==> r == n
  {
    if n > PhpIntMax then PhpIntMax else if n < PhpIntMin then PhpIntMin else n
  }

  /** The integer at the very start of t: an optional sign and the longest
      run of digits after it, 0 when there are none. */
  function SignedDigits(t: string): (n: int)
    ensures t != [] && IsDigit(t[0]) ==>
      var k := DigitsPrefix(t, 0).1;
      AllDigits(t[..k]) && n == Read(t[..k])
    ensures t != [] && (t[0] == '-' || t[0] == '+') ==>
      var k := DigitsPrefix(t[1..], 0).1;
      AllDigits(t[1..][..k]) && n == (if t[0] == '-' then -(Read(t[1..][..k]) as int) else Read(t[1..][..k]))
    ensures (t == [] || (!IsDigit(t[0]) && t[0] != '-' && t[0] != '+')) ==> n == 0
  {
    if t != [] && (t[0] == '-' || t[0] == '+') then
      var d := DigitsPrefix(t[1..], 0);
      if t[0] == '-' then -(d.0 as int) else d.0
    else
      DigitsPrefix(t, 0).0
  }

  /** (int)$s for a string: the leading integer after optional whitespace and
      sign, saturated to the int range, and 0 when the string does not start
      with one. */
  function LeadingInt(s: string): (r: int)
    ensures PhpIntMin <= r <= PhpIntMax
    ensures s != [] && IsDigit(s[0]) ==>
      var k := DigitsPrefix(s, 0).1;
      AllDigits(s[..k]) && r == Saturate(Read(s[..k]))
    ensures |s| >= 2 && (s[0] == '-' || s[0] == '+') && IsDigit(s[1]) ==>
      var k := DigitsPrefix(s[1..], 0).1;
      AllDigits(s[1..][..k]) && r == Saturate(if s[0] == '-' then -(Read(s[1..][..k]) as int) else Read(s[1..][..k]))
    ensures s != [] && AllDigits(s) ==> r == Saturate(Read(s))
    ensures (s == [] || (!IsDigit(s[0]) && !IsNumericSpace(s[0]) && s[0] != '-' && s[0] != '+')) ==> r == 0
  {
    NoSpaceToSkip(s);
    AllDigitsPrefix(s);
    UnsignedAtStart(s);
    SignedAtStart(s);
    Saturate(SignedDigits(SkipNumericSpace(s)))
  }

  lemma UnsignedAtStart(s: string)
    ensures s != [] && IsDigit(s[0]) ==>
      var k := DigitsPrefix(s, 0).1;
      AllDigits(s[..k]) && SignedDigits(SkipNumericSpace(s)) == Read(s[..k])
  {
    if s != [] && IsDigit(s[0]) {
      NoSpaceToSkip(s);
      var t := SkipNumericSpace(s);
      assert t == s;
      var n := SignedDigits(t);
      assert n == Read(t[..DigitsPrefix(t, 0).1]);
    }
  }

  lemma SignedAtStart(s: string)
    ensures |s| >= 2 && (s[0] == '-' || s[0] == '+') ==>
      var k := DigitsPrefix(s[1..], 0).1;
      && AllDigits(s[1..][..k])
      && SignedDigits(SkipNumericSpace(s)) == (if s[0] == '-' then -(Read(s[1..][..k]) as int) else Read(s[1..][..k]))
  {
    if |s| >= 2 && (s[0] == '-' || s[0] == '+') {
      NoSpaceToSkip(s);
      var t := SkipNumericSpace(s);
      assert t == s;
      var n := SignedDigits(t);
      var k := DigitsPrefix(t[1..], 0).1;
      assert n == (if t[0] == '-' then -(Read(t[1..][..k]) as int) else Read(t[1..][..k]));
    }
  }

  /** Without leading whitespace, (int) reads the integer at the very start. */
  lemma NoSpaceToSkip(s: string)
    ensures s == [] || !IsNumericSpace(s[0]) ==> SkipNumericSpace(s) == s
  {
  }

  /** A string of digits is its own longest digit prefix. */
  lemma AllDigitsPrefix(s: string)
    ensures s != [] && AllDigits(s) ==> DigitsPrefix(s, 0).1 == |s| && s[..|s|] == s && IsDigit(s[0])
  {
  }

  /** PHP skips whitespace before the number. */
  lemma LeadingIntSkipsSpace(s: string)
    requires s != [] && IsNumericSpace(s[0])
    ensures LeadingInt(s) == LeadingInt(s[1..])
  {
  }

  /** (int)"10" is 10: the first digit counts tens. */
  lemma LeadingIntTen(s: string)
    requires s == "10"
    ensures LeadingInt(s) == 10
  {
    assert s[0] == '1' && s[1] == '0';
    assert AllDigits(s);
    ReadTwo(s);
    assert Read(s) == 10;
    assert LeadingInt(s) == Saturate(Read(s));
  }

  /** (int)" -42px" is -42: whitespace is skipped, the sign kept, the tail ignored. */
  lemma LeadingIntSignedExample(s: string)
    requires s == " -42px"
    ensures LeadingInt(s) == -42
  {
    LeadingIntSkipsSpace(s);
    var t := s[1..];
    assert t == "-42px";
    var u := t[1..];
    assert u == "42px";
    DigitsPrefixOfNumber(u);
    ReadTwo(u[..2]);
  }

  /** (int)"abc1" is 0: a digit after the start does not count. */
  lemma LeadingIntLetterFirst(s: string)
    requires s == "abc1"
    ensures LeadingInt(s) == 0
  {
    assert !IsDigit(s[0]) && !IsNumericSpace(s[0]);
  }

  lemma DigitsPrefixOfNumber(s: string)
    requires s == "42px"
    ensures DigitsPrefix(s, 0).1 == 2 && s[..2] == "42"
  {
    assert s[2..] == "px";
    assert DigitsPrefix(s[2..], 42).1 == 0;
    assert s[1..][1..] == s[2..];
  }

  /** PHP's (int) cast of a decoded value. */
  function IntCast(v: Value): (r: int)
    ensures v.Str? ==> PhpIntMin <= r <= PhpIntMax
    ensures v.Int? ==> r == v.i
    ensures v.Bool? ==> r == (if v.b then 1 else 0)
    ensures v.Null? ==> r == 0
  {
    match v
    case Str(s) => LeadingInt(s)
    case Int(i) => i
    case Bool(b) => if b then 1 else 0
    case Null => 0
  }

  // ----- case -----

  function LowerChar(c: char): char {
    if 'A' <= c <= 'Z' then (c as int + 32) as char else c
  }

  /** strtolower(): ASCII letters are lowered, every other character kept. */
  function Lower(s: string): (r: string)
    ensures |r| == |s| && forall i :: 0 <= i < |s| ==> r[i] == LowerChar(s[i])
  {
    seq(|s|, i requires 0 <= i < |s| => LowerChar(s[i]))
  }
}

/** Decimal integers as the exporter reads and writes them: `strconv.Atoi`
    for a 64-bit `int`, and the `%d` verb of `fmt`. */
module Strconv {
  import opened Wrappers

  const MinInt64: int := -0x8000_0000_0000_0000
  const MaxInt64: int := 0x7fff_ffff_ffff_ffff

  /** The values of Go's `int` on a 64-bit platform. */
  predicate IsInt64(n: int) {
    MinInt64 <= n <= MaxInt64
  }

  predicate IsDigit(c: char) {
    '0' <= c <= '9'
  }

  predicate AllDigits(s: string) {
    forall k :: 0 <= k < |s| ==> IsDigit(s[k])
  }

  /** The error `strconv.Atoi` reports (a `*strconv.NumError` naming the input);
      whether it is a syntax or a range error is not distinguished. */
  datatype NumError = InvalidNumber(text: string)

  function DigitValue(c: char): (d: nat)
    requires IsDigit(c)
    ensures d < 10
  {
    c as int - '0' as int
  }

  function DigitChar(d: nat): (c: char)
    requires d < 10
    ensures IsDigit(c) && DigitValue(c) == d
  {
    ('0' as int + d) as char
  }

  /** The value of a string of decimal digits, most significant first. */
  function DigitsValue(digits: string): nat
    requires AllDigits(digits)
  {
    if digits == [] then 0
    else 10 * DigitsValue(digits[..|digits| - 1]) + DigitValue(digits[|digits| - 1])
  }

  /** `strconv.Atoi`: an optional `+` or `-` followed by one or more ASCII
      digits (leading zeros allowed, nothing else, no white space), whose
      value fits a 64-bit `int`. `AtoiAccepted` and `AtoiAccepts` give the
      value it reads. */
  function Atoi(s: string): (r: Result<int, NumError>)
    ensures s == [] ==> r.Failure?
    ensures r.Failure? ==> r.error == InvalidNumber(s)
    ensures r.Success? ==> IsInt64(r.value)
    ensures r.Success? ==> (IsDigit(s[0]) || s[0] == '+' || s[0] == '-') && AllDigits(s[1..])
    ensures r.Success? ==> IsDigit(s[0]) || |s| >= 2
    ensures r.Success? && s[0] == '-' ==> r.value <= 0
    ensures r.Success? && s[0] != '-' ==> r.value >= 0
  {
    if s == [] then Failure(InvalidNumber(s))
    else
      var signed := s[0] == '+' || s[0] == '-';
      var digits := if signed then s[1..] else s;
      if digits == [] || !AllDigits(digits) then Failure(InvalidNumber(s))
      else
        var magnitude: int := DigitsValue(digits);
        var value: int := if s[0] == '-' then -magnitude else magnitude;
        if IsInt64(value) then Success(value) else Failure(InvalidNumber(s))
  }

  function Abs(n: int): nat {
    if n < 0 then -n else n
  }

  /** The decimal digits of `n`, without leading zeros. */
  function FormatNat(n: nat): (s: string)
    ensures s != [] && AllDigits(s)
    ensures DigitsValue(s) == n
    ensures s[0] == '0' ==> s == "0"
  {
    if n < 10 then [DigitChar(n)]
    else
      var s := FormatNat(n / 10) + [DigitChar(n % 10)];
      assert s[..|s| - 1] == FormatNat(n / 10);
      s
  }

  /** `fmt.Sprintf("%d", n)`: a minus sign for negative values, then the
      digits of the magnitude, with no leading zero. */
  function FormatInt(n: int): (s: string)
    ensures s != []
    ensures forall k :: 0 <= k < |s| ==> IsDigit(s[k]) || (k == 0 && s[k] == '-')
    ensures s[0] == '-' <==> n < 0
    ensures s[0] == '0' ==> s == "0"
    ensures s[0] == '-' ==> |s| >= 2 && s[1] != '0'
    ensures DigitsValue(if n < 0 then s[1..] else s) == Abs(n)
  {
    if n < 0 then
      var s := "-" + FormatNat(-n);
      assert s[1..] == FormatNat(-n);
      s
    else FormatNat(n)
  }

  /** `k` zero digits. */
  function Zeros(k: nat): string {
    seq(k, _ => '0')
  }

  /** The ways decimal text may start: with no sign, with `+` or with `-`. */
  predicate IsSign(sign: string) {
    sign == "" || sign == "+" || sign == "-"
  }

  /** Leading zeros change neither that text is digits nor its value. */
  lemma {:induction false} DigitsValueZeros(k: nat, digits: string)
    requires AllDigits(digits)
    ensures AllDigits(Zeros(k) + digits) && DigitsValue(Zeros(k) + digits) == DigitsValue(digits)
  {
    if k == 0 {
      assert Zeros(k) + digits == digits;
    } else {
      DigitsValueZeros(k - 1, digits);
      assert Zeros(k) + digits == "0" + (Zeros(k - 1) + digits);
      DigitsValueLeadingZero(Zeros(k - 1) + digits);
    }
  }

  /** Any digit string is some zeros followed by the canonical digits of its value. */
  lemma {:induction false} DigitsCanonical(digits: string) returns (k: nat)
    requires digits != [] && AllDigits(digits)
    ensures digits == Zeros(k) + FormatNat(DigitsValue(digits))
    decreases |digits|
  {
    var init, c := digits[..|digits| - 1], digits[|digits| - 1];
    assert digits == init + [c];
    assert DigitChar(DigitValue(c)) == c;
    if init == [] {
      k := 0;
    } else {
      var j := DigitsCanonical(init);
      var m := DigitsValue(init);
      var n := DigitsValue(digits);
      assert n == 10 * m + DigitValue(c);
      if m == 0 {
        assert init == Zeros(j + 1);
        k := j + 1;
      } else {
        assert n / 10 == m && n % 10 == DigitValue(c);
        k := j;
      }
    }
  }

  /** Text that `Atoi` accepts is a sign, some zeros and then exactly the
      `%d` digits of the magnitude of the value read. */
  lemma AtoiAccepted(s: string) returns (sign: string, k: nat)
    requires Atoi(s).Success?
    ensures IsSign(sign) && s == sign + Zeros(k) + FormatNat(Abs(Atoi(s).value))
    ensures Atoi(s).value < 0 ==> sign == "-"
    ensures sign == "-" ==> Atoi(s).value <= 0
  {
    var digits;
    sign, digits := AtoiParts(s);
    k := DigitsCanonical(digits);
    AssocSign(sign, Zeros(k), FormatNat(DigitsValue(digits)));
  }

  /** The sign and the digits of text that `Atoi` accepts. */
  lemma AtoiParts(s: string) returns (sign: string, digits: string)
    requires Atoi(s).Success?
    ensures IsSign(sign) && s == sign + digits
    ensures digits != [] && AllDigits(digits) && DigitsValue(digits) == Abs(Atoi(s).value)
    ensures Atoi(s).value < 0 ==> sign == "-"
    ensures sign == "-" ==> Atoi(s).value <= 0
  {
    if s[0] == '+' || s[0] == '-' {
      sign, digits := [s[0]], s[1..];
    } else {
      sign, digits := "", s;
    }
    assert s == sign + digits;
  }

  /** The value of a magnitude under a sign. */
  function Signed(sign: string, n: nat): int {
    if sign == "-" then -(n as int) else n
  }

  /** Conversely, `Atoi` accepts a sign, any zeros and the digits of a
      magnitude whenever the signed value fits 64 bits, and reads that value. */
  lemma AtoiAccepts(sign: string, k: nat, n: nat)
    requires IsSign(sign) && IsInt64(Signed(sign, n))
    ensures Atoi(sign + Zeros(k) + FormatNat(n)) == Success(Signed(sign, n))
  {
    var digits := Zeros(k) + FormatNat(n);
    DigitsValueZeros(k, FormatNat(n));
    AssocSign(sign, Zeros(k), FormatNat(n));
    if sign == "" {
      AtoiUnsigned(digits, n);
    } else {
      AtoiWithSign(sign[0], digits, n);
      assert sign == [sign[0]];
    }
  }

  lemma AssocSign(sign: string, zeros: string, digits: string)
    ensures sign + zeros + digits == sign + (zeros + digits)
  {
  }

  lemma AtoiUnsigned(digits: string, n: nat)
    requires digits != [] && AllDigits(digits) && DigitsValue(digits) == n && IsInt64(n)
    ensures Atoi("" + digits) == Success(n)
  {
    assert "" + digits == digits;
  }

  lemma AtoiWithSign(c: char, digits: string, n: nat)
    requires c == '+' || c == '-'
    requires digits != [] && AllDigits(digits) && DigitsValue(digits) == n
    requires IsInt64(Signed([c], n))
    ensures Atoi([c] + digits) == Success(Signed([c], n))
  {
    assert ([c] + digits)[0] == c && ([c] + digits)[1..] == digits;
  }

  /** `Atoi` reads back every 64-bit value that `%d` writes. */
  lemma AtoiFormatInt(n: int)
    requires IsInt64(n)
    ensures Atoi(FormatInt(n)) == Success(n)
  {
    var sign := if n < 0 then "-" else "";
    AtoiAccepts(sign, 0, Abs(n));
    assert Signed(sign, Abs(n)) == n;
    assert Zeros(0) == [];
    assert sign + Zeros(0) + FormatNat(Abs(n)) == FormatInt(n);
  }

  /** Leading zeros do not change the value `Atoi` reads. */
  lemma AtoiLeadingZero(digits: string)
    requires digits != [] && AllDigits(digits)
    ensures Atoi("0" + digits).Success? <==> Atoi(digits).Success?
    ensures Atoi(digits).Success? ==> Atoi("0" + digits) == Atoi(digits)
  {
    DigitsValueLeadingZero(digits);
  }

  /** A leading plus sign does not change the value `Atoi` reads. */
  lemma AtoiPlusSign(digits: string)
    requires digits != [] && AllDigits(digits)
    ensures Atoi("+" + digits).Success? <==> Atoi(digits).Success?
    ensures Atoi(digits).Success? ==> Atoi("+" + digits) == Atoi(digits)
  {
    assert ("+" + digits)[1..] == digits;
  }

  lemma {:induction false} DigitsValueLeadingZero(digits: string)
    requires AllDigits(digits)
    ensures AllDigits("0" + digits) && DigitsValue("0" + digits) == DigitsValue(digits)
  {
    var z := "0" + digits;
    if digits != [] {
      assert z[..|z| - 1] == "0" + digits[..|digits| - 1];
      DigitsValueLeadingZero(digits[..|digits| - 1]);
    }
  }
}

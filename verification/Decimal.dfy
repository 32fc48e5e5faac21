/** Identities and the decimal strings that name them in etcd keys. */
module Decimal {

  /** A `uint16`. */
  type Identity = i: nat | i < 65536

  const DIGITS := "0123456789"

  /** `strconv.FormatUint(uint64(n), 10)` and `strconv.Itoa(n)`. */
  function Dec(n: nat): (s: string)
    ensures s != ""
  {
    if n < 10 then [DIGITS[n]] else Dec(n / 10) + [DIGITS[n % 10]]
  }

  predicate IsDigit(c: char) { '0' <= c <= '9' }

  function DigitValue(c: char): nat
    requires IsDigit(c)
  {
    c as int - '0' as int
  }

  /** The number a string of digits stands for, leading zeros allowed. */
  function Value(s: string): nat
    requires forall c <- s :: IsDigit(c)
  {
    if s == "" then 0 else 10 * Value(s[..|s| - 1]) + DigitValue(s[|s| - 1])
  }

  lemma DigitRoundTrip(d: nat)
    requires d < 10
    ensures IsDigit(DIGITS[d]) && DigitValue(DIGITS[d]) == d
  {
    assert DIGITS[0] == '0' && DIGITS[1] == '1' && DIGITS[2] == '2' && DIGITS[3] == '3' && DIGITS[4] == '4';
    assert DIGITS[5] == '5' && DIGITS[6] == '6' && DIGITS[7] == '7' && DIGITS[8] == '8' && DIGITS[9] == '9';
  }

  lemma {:induction false} DecIsDigits(n: nat)
    ensures forall c <- Dec(n) :: IsDigit(c)
    ensures n > 0 ==> Dec(n)[0] != '0'
  {
    if n < 10 {
      DigitRoundTrip(n);
    } else {
      DigitRoundTrip(n % 10);
      DecIsDigits(n / 10);
    }
  }

  lemma {:induction false} DecRoundTrip(n: nat)
    ensures forall c <- Dec(n) :: IsDigit(c)
    ensures Value(Dec(n)) == n
  {
    DecIsDigits(n);
    if n < 10 {
      DigitRoundTrip(n);
      assert Dec(n)[..0] == "";
    } else {
      DigitRoundTrip(n % 10);
      DecRoundTrip(n / 10);
      assert Dec(n)[..|Dec(n)| - 1] == Dec(n / 10);
    }
  }

  lemma DecInjective(i: nat, j: nat)
    ensures Dec(i) == Dec(j) <==> i == j
  {
    DecRoundTrip(i);
    DecRoundTrip(j);
  }

  lemma DecAvoids(n: nat, c: char)
    requires !IsDigit(c)
    ensures c !in Dec(n)
  {
    DecIsDigits(n);
  }

  // ---- which decimals extend which ----

  function Pow10(k: nat): (p: nat)
    ensures p >= 1
  {
    if k == 0 then 1 else 10 * Pow10(k - 1)
  }

  lemma DivTen(j: nat, p: nat)
    requires p >= 1
    ensures j / 10 / p == j / (10 * p)
  {
    var q := j / 10 / p;
    var r := j / 10 % p;
    assert j / 10 == q * p + r;
    assert j == 10 * (j / 10) + j % 10;
    assert j == q * (10 * p) + (10 * r + j % 10) by {
      assert 10 * (q * p + r) == q * (10 * p) + 10 * r;
    }
    QuotientUnique(j, 10 * p, q, 10 * r + j % 10);
  }

  lemma QuotientUnique(j: nat, d: nat, q: nat, r: nat)
    requires d >= 1 && r < d && j == q * d + r
    ensures j / d == q
  {
    var q', r' := j / d, j % d;
    assert j == q' * d + r';
    MulGap(q, q', d);
    MulGap(q', q, d);
  }

  lemma MulStep(a: nat, d: nat)
    ensures (a + 1) * d == a * d + d
  {}

  lemma {:induction false} MulMono(a: nat, b: nat, d: nat)
    requires a <= b
    ensures a * d <= b * d
    decreases b - a
  {
    if a < b {
      MulMono(a, b - 1, d);
      MulStep(b - 1, d);
    }
  }

  lemma MulGap(a: nat, b: nat, d: nat)
    ensures a < b ==> a * d + d <= b * d
  {
    if a < b {
      MulStep(a, d);
      MulMono(a + 1, b, d);
    }
  }

  lemma {:induction false} PrefixIsDivision(i: nat, j: nat) returns (k: nat)
    requires Dec(i) <= Dec(j)
    ensures i == j / Pow10(k)
  {
    if |Dec(i)| == |Dec(j)| {
      assert Dec(i) == Dec(j);
      DecInjective(i, j);
      k := 0;
    } else {
      assert j >= 10;
      assert Dec(j)[..|Dec(j)| - 1] == Dec(j / 10);
      assert Dec(i) <= Dec(j / 10);
      var k' := PrefixIsDivision(i, j / 10);
      DivTen(j, Pow10(k'));
      k := k' + 1;
    }
  }

  lemma {:induction false} DivisionIsPrefix(j: nat, k: nat)
    requires j / Pow10(k) > 0
    ensures Dec(j / Pow10(k)) <= Dec(j)
  {
    if k > 0 {
      DivTen(j, Pow10(k - 1));
      assert j >= 10 by {
        if j < 10 {
          assert j / 10 == 0;
          QuotientUnique(0, Pow10(k - 1), 0, 0);
        }
      }
      DivisionIsPrefix(j / 10, k - 1);
    }
  }

  /** `j` lies in the block of numbers whose leading digits are those of `i`. */
  ghost predicate InBlock(i: nat, k: nat, j: nat) {
    i * Pow10(k) <= j < (i + 1) * Pow10(k)
  }

  lemma BlockIsDivision(i: nat, k: nat, j: nat)
    ensures InBlock(i, k, j) <==> i == j / Pow10(k)
  {
    var p := Pow10(k);
    assert (i + 1) * p == i * p + p;
    if InBlock(i, k, j) {
      QuotientUnique(j, p, i, j - i * p);
    }
    if i == j / p {
      assert j == i * p + j % p;
    }
  }

  /** The exact reach of a decimal used as a prefix. */
  lemma PrefixReach(i: nat, j: nat)
    requires i > 0
    ensures Dec(i) <= Dec(j) <==> exists k :: InBlock(i, k, j)
  {
    if Dec(i) <= Dec(j) {
      var k := PrefixIsDivision(i, j);
      BlockIsDivision(i, k, j);
    }
    if k :| InBlock(i, k, j) {
      BlockIsDivision(i, k, j);
      DivisionIsPrefix(j, k);
    }
  }

  /** Zero, the remaining identity, names only itself. */
  lemma ZeroReach(j: nat)
    ensures Dec(0) <= Dec(j) <==> j == 0
  {
    DecIsDigits(j);
    if j > 0 {
      assert Dec(0)[0] == '0';
    }
  }

  /** Five-digit identities never extend one another. */
  lemma FiveDigitsArePrefixFree(i: Identity, j: Identity)
    requires i >= 10000
    ensures Dec(i) <= Dec(j) <==> i == j
  {
    if Dec(i) <= Dec(j) {
      var k := PrefixIsDivision(i, j);
      BlockIsDivision(i, k, j);
      BlockStart(i, k);
    }
  }

  lemma BlockStart(i: nat, k: nat)
    ensures k > 0 ==> i * Pow10(k) >= 10 * i
  {
    if k > 0 {
      assert i * Pow10(k) == 10 * i + i * (Pow10(k) - 10);
    }
  }

  // ---- reading decimals back ----

  const MAX_INT64 := 0x7FFF_FFFF_FFFF_FFFF

  predicate AllDigits(s: string) { s != "" && forall c <- s :: IsDigit(c) }

  /** `n, _ := strconv.Atoi(s)`: 0 on a syntax error, clamped to int64 on overflow. */
  function Atoi(s: string): int {
    var negative := s != "" && s[0] == '-';
    var digits := if s != "" && (s[0] == '-' || s[0] == '+') then s[1..] else s;
    if !AllDigits(digits) then 0
    else if negative then
      if Value(digits) > MAX_INT64 + 1 then -MAX_INT64 - 1 else 0 - Value(digits)
    else
      if Value(digits) > MAX_INT64 then MAX_INT64 else Value(digits)
  }

  /** The conversion `uint16(n)` of a signed integer. */
  function ToUint16(n: int): Identity { n % 65536 }

  /** It takes away a multiple of 65536 and nothing else. */
  lemma ToUint16Exactly(n: int) returns (q: int)
    ensures n == 65536 * q + ToUint16(n) && 0 <= ToUint16(n) < 65536
  {
    q := n / 65536;
  }

  /** An identity formatted by the operator and parsed by the server comes back. */
  lemma AtoiRoundTrip(i: Identity)
    ensures ToUint16(Atoi(Dec(i))) == i
  {
    DecRoundTrip(i);
    DecIsDigits(i);
    assert IsDigit(Dec(i)[0]);
  }

  /** A JSON number as `json.Unmarshal` accepts it for a `uint16`. */
  predicate IsJsonUint16(s: string) {
    AllDigits(s) && (|s| > 1 ==> s[0] != '0') && Value(s) < 65536
  }

  lemma DecIsJsonUint16(i: Identity)
    ensures IsJsonUint16(Dec(i)) && Value(Dec(i)) == i
  {
    DecRoundTrip(i);
    DecIsDigits(i);
  }

  lemma DecStep(a: nat, d: nat)
    requires a > 0 && d < 10
    ensures Dec(10 * a + d) == Dec(a) + [DIGITS[d]]
  {}

  lemma DigitOfValue(c: char)
    requires IsDigit(c)
    ensures DigitValue(c) < 10 && DIGITS[DigitValue(c)] == c && (c != '0' ==> DigitValue(c) > 0)
  {
    DigitRoundTrip(DigitValue(c));
  }

  /** One digit more. */
  lemma DecNext(w: nat, c: char) returns (v: nat)
    requires w > 0 && IsDigit(c)
    ensures v > 0 && Dec(v) == Dec(w) + [c]
  {
    DigitOfValue(c);
    DecStep(w, DigitValue(c));
    v := 10 * w + DigitValue(c);
  }

  lemma DecOfDigit(c: char) returns (v: nat)
    requires IsDigit(c)
    ensures Dec(v) == [c] && (c != '0' ==> v > 0)
  {
    DigitOfValue(c);
    v := DigitValue(c);
  }

  /** Digits without leading zeros are the decimal of some number. */
  lemma {:induction false} DecExists(s: string) returns (v: nat)
    requires AllDigits(s) && (|s| > 1 ==> s[0] != '0')
    ensures Dec(v) == s && (s[0] != '0' ==> v > 0)
    decreases |s|
  {
    var n := |s| - 1;
    if n == 0 {
      assert s == [s[0]];
      v := DecOfDigit(s[0]);
    } else {
      assert s == s[..n] + [s[n]];
      var w := DecExists(s[..n]);
      v := DecNext(w, s[n]);
    }
  }

  /** That number is their value. */
  lemma DecOfValue(s: string)
    requires AllDigits(s) && (|s| > 1 ==> s[0] != '0')
    ensures Dec(Value(s)) == s
  {
    var v := DecExists(s);
    DecRoundTrip(v);
  }

  /** What `Atoi` makes of digits: their value, clamped to 64 bits. */
  lemma AtoiOfDigits(s: string)
    requires AllDigits(s)
    ensures Atoi(s) == if Value(s) < 0x8000_0000_0000_0000 then Value(s) else 0x7FFF_FFFF_FFFF_FFFF
  {
    assert IsDigit(s[0]);
  }

  /** Of digits with a sign. */
  lemma AtoiOfSigned(s: string)
    requires AllDigits(s)
    ensures Atoi("+" + s) == Atoi(s)
    ensures Atoi("-" + s) == if Value(s) <= 0x8000_0000_0000_0000 then 0 - Value(s) else -0x8000_0000_0000_0000
  {
    var plus, minus := "+" + s, "-" + s;
    assert plus[0] == '+' && plus[1..] == s;
    assert minus[0] == '-' && minus[1..] == s;
    AtoiOfDigits(s);
  }

  /** And of anything else: 0. */
  lemma AtoiOfOthers(s: string)
    requires !AllDigits(s) && (s != "" && (s[0] == '+' || s[0] == '-') ==> !AllDigits(s[1..]))
    ensures Atoi(s) == 0
  {}
}

/** Integers as text: `convert` and `convertHex` of base/log_stream.cpp. */
module Numerals {
  import opened CInt

  const DIGITS_HEX := "0123456789ABCDEF"

  /** `digits`, whose middle is `zero`: the digit of a remainder of either sign. */
  const DIGITS := "9876543210123456789"

  /** The digits of `n`, most significant first. */
  function Numeral(n: nat, base: nat): (s: string)
    requires 2 <= base <= 16
    ensures s != ""
  {
    if n < base then [DIGITS_HEX[n]] else Numeral(n / base, base) + [DIGITS_HEX[n % base]]
  }

  function Decimal(v: int): string {
    if v < 0 then "-" + Numeral(-v, 10) else Numeral(v, 10)
  }

  // ------------------------------------------------------------------- reading

  function DigitValue(c: char): int {
    if '0' <= c <= '9' then c as int - '0' as int
    else if 'A' <= c <= 'F' then c as int - 'A' as int + 10
    else -1
  }

  ghost predicate IsDigit(c: char, base: nat) {
    0 <= DigitValue(c) < base
  }

  function ReadNumeral(s: string, base: nat): int {
    if s == "" then 0 else ReadNumeral(s[..|s| - 1], base) * base + DigitValue(s[|s| - 1])
  }

  function ReadDecimal(s: string): int {
    if s != "" && s[0] == '-' then -ReadNumeral(s[1..], 10) else ReadNumeral(s, 10)
  }

  /** Digits only, and no zero in front of others. */
  ghost predicate Canonical(s: string, base: nat) {
    s != "" && (forall i :: 0 <= i < |s| ==> IsDigit(s[i], base)) && (|s| > 1 ==> s[0] != '0')
  }

  lemma OneDigit(n: nat, base: nat)
    requires n < base <= 16
    ensures ReadNumeral([DIGITS_HEX[n]], base) == n && Canonical([DIGITS_HEX[n]], base)
    ensures DIGITS_HEX[n] == '0' <==> n == 0
  {
    assert [DIGITS_HEX[n]][..0] == "";
  }

  lemma PushValue(front: string, d: nat, base: nat)
    requires d < base <= 16
    ensures ReadNumeral(front + [DIGITS_HEX[d]], base) == ReadNumeral(front, base) * base + d
  {
    var s := front + [DIGITS_HEX[d]];
    assert s[..|front|] == front && DigitValue(DIGITS_HEX[d]) == d;
  }

  lemma PushCanonical(front: string, d: nat, base: nat)
    requires d < base <= 16 && Canonical(front, base) && front[0] != '0'
    ensures Canonical(front + [DIGITS_HEX[d]], base) && (front + [DIGITS_HEX[d]])[0] != '0'
  {
    assert IsDigit(DIGITS_HEX[d], base);
  }

  lemma PositiveQuotient(n: nat, base: nat)
    requires 2 <= base <= n
    ensures 0 < n / base && (n / base) * base + n % base == n
  {
    Euclid(n, base);
    if n / base == 0 {
      assert false;
    }
  }

  lemma {:induction false} NumeralReadsBack(n: nat, base: nat)
    requires 2 <= base <= 16
    ensures ReadNumeral(Numeral(n, base), base) == n
    ensures Canonical(Numeral(n, base), base)
    ensures n > 0 ==> Numeral(n, base)[0] != '0'
  {
    hide ReadNumeral, Canonical;
    if n < base {
      OneDigit(n, base);
    } else {
      PositiveQuotient(n, base);
      NumeralReadsBack(n / base, base);
      PushValue(Numeral(n / base, base), n % base, base);
      PushCanonical(Numeral(n / base, base), n % base, base);
    }
  }

  /** The text of every integer reads back as it and is canonical. */
  lemma DecimalReadsBack(v: int)
    ensures ReadDecimal(Decimal(v)) == v
    ensures v >= 0 ==> Canonical(Decimal(v), 10)
    ensures v < 0 ==> Decimal(v)[0] == '-' && Canonical(Decimal(v)[1..], 10) && Decimal(v)[1] != '0'
  {
    NumeralReadsBack(if v < 0 then -v else v, 10);
  }

  lemma PushNumeral(n: nat, d: nat, base: nat)
    requires 2 <= base <= 16 && n > 0 && d < base
    ensures Numeral(n * base + d, base) == Numeral(n, base) + [DIGITS_HEX[d]] && n * base + d > 0
  {
    AtLeast(base, n);
    DivUnique(n * base + d, base, n, d);
  }

  /** No other canonical text reads as the same number. */
  lemma {:induction false} CanonicalIsNumeral(s: string, base: nat)
    requires 2 <= base <= 16 && Canonical(s, base)
    ensures ReadNumeral(s, base) >= 0 && Numeral(ReadNumeral(s, base), base) == s
    ensures s[0] != '0' ==> ReadNumeral(s, base) > 0
  {
    var front, last := s[..|s| - 1], s[|s| - 1];
    var d := DigitValue(last);
    assert IsDigit(last, base) && DIGITS_HEX[d] == last;
    if |s| == 1 {
      assert front == "" && s == [last];
    } else {
      hide Numeral;
      assert Canonical(front, base);
      CanonicalIsNumeral(front, base);
      var n := ReadNumeral(front, base);
      assert s == front + [last];
      PushNumeral(n, d, base);
    }
  }

  // -------------------------------------------------------------------- length

  function Pow(base: nat, k: nat): nat {
    if k == 0 then 1 else base * Pow(base, k - 1)
  }

  lemma {:induction false} NumeralLength(n: nat, base: nat, k: nat)
    requires 2 <= base <= 16 && k > 0 && n < Pow(base, k)
    ensures |Numeral(n, base)| <= k
    decreases k
  {
    if n >= base {
      hide Numeral, Pow;
      var q := PowStep(n, base, k);
      NumeralLength(q, base, k - 1);
    }
  }

  lemma PowStep(n: nat, base: nat, k: nat) returns (q: nat)
    requires 2 <= base <= 16 && k > 0 && base <= n < Pow(base, k)
    ensures k > 1 && q < Pow(base, k - 1) && |Numeral(n, base)| == |Numeral(q, base)| + 1
  {
    hide Pow, Numeral;
    q := DropDigit(n, base);
    PowOne(base);
    PowUnfold(base, k, q);
  }

  lemma DropDigit(n: nat, base: nat) returns (q: nat)
    requires 2 <= base <= 16 && base <= n
    ensures base * q <= n && |Numeral(n, base)| == |Numeral(q, base)| + 1
  {
    q := n / base;
    PositiveQuotient(n, base);
    assert Numeral(n, base) == Numeral(q, base) + [DIGITS_HEX[n % base]];
  }

  lemma PowUnfold(base: nat, k: nat, q: nat)
    requires k > 0 && base * q < Pow(base, k)
    ensures q < Pow(base, k - 1)
  {
    if q >= Pow(base, k - 1) {
      MulMonotone(base, Pow(base, k - 1), q);
      assert false;
    }
  }

  lemma PowOne(base: nat)
    ensures Pow(base, 1) == base
  {
    assert Pow(base, 1) == base * Pow(base, 0);
  }

  lemma MulMonotone(a: nat, x: nat, y: nat)
    requires x <= y
    ensures a * x <= a * y
  {
  }

  /** Any 64-bit integer, signed or not, takes at most 20 characters, and any pointer at most 16 digits. */
  lemma TextIsShort(v: int)
    requires -0x8000_0000_0000_0000 <= v <= 0xffff_ffff_ffff_ffff
    ensures |Decimal(v)| <= 20
    ensures v >= 0 ==> |Numeral(v, 16)| <= 16
  {
    Powers();
    if v < 0 {
      NumeralLength(-v, 10, 19);
    } else {
      NumeralLength(v, 10, 20);
      NumeralLength(v, 16, 16);
    }
  }

  lemma Powers()
    ensures Pow(10, 19) == 10_000_000_000_000_000_000 && Pow(10, 20) == 100_000_000_000_000_000_000
    ensures Pow(16, 16) == 0x1_0000_0000_0000_0000
  {
    assert Pow(10, 5) == 100_000;
    assert Pow(10, 10) == 10_000_000_000;
    assert Pow(10, 15) == 1_000_000_000_000_000;
    assert Pow(16, 4) == 0x1_0000;
    assert Pow(16, 8) == 0x1_0000_0000;
    assert Pow(16, 12) == 0x1_0000_0000_0000;
  }

  // ------------------------------------------------------------------ the code

  function Reversed(s: string): (r: string)
    ensures |r| == |s|
    ensures forall i :: 0 <= i < |s| ==> r[i] == s[|s| - 1 - i]
  {
    if s == "" then "" else [s[|s| - 1]] + Reversed(s[..|s| - 1])
  }

  lemma ReversedPush(s: string, c: char)
    ensures Reversed(s + [c]) == [c] + Reversed(s)
  {
    assert (s + [c])[..|s|] == s;
  }

  /** `std::reverse`. */
  method Reverse(buf: array<char>, lo: nat, hi: nat)
    requires lo <= hi <= buf.Length
    modifies buf
    ensures buf[lo..hi] == Reversed(old(buf[lo..hi]))
    ensures buf[..lo] == old(buf[..lo]) && buf[hi..] == old(buf[hi..])
  {
    var i, j := lo, hi;
    while i + 1 < j
      invariant lo <= i <= j + 1 && i - lo == hi - j && j <= hi
      invariant forall k :: lo <= k < hi ==> buf[k] == if i <= k < j then old(buf[k]) else old(buf[lo + hi - 1 - k])
      invariant forall k :: 0 <= k < lo || hi <= k < buf.Length ==> buf[k] == old(buf[k])
    {
      j := j - 1;
      buf[i], buf[j] := buf[j], buf[i];
      i := i + 1;
    }
    ghost var was := old(buf[lo..hi]);
    forall k | 0 <= k < hi - lo ensures buf[lo..hi][k] == was[|was| - 1 - k] {
      assert buf[lo + k] == old(buf[lo + hi - 1 - (lo + k)]);
      assert was[|was| - 1 - k] == old(buf[lo..hi][hi - lo - 1 - k]);
    }
  }

  lemma SignedDigit(i: int)
    ensures var lsd := CMod(i, 10);
            -9 <= lsd <= 9 && DIGITS[9 + lsd] == DIGITS_HEX[Abs(i) % 10] && Abs(CDiv(i, 10)) == Abs(i) / 10
  {
    if i < 0 {
      CModOfNegative(i, 10);
      CDivOfNegative(i, 10);
    }
  }

  function Abs(i: int): nat {
    if i < 0 then -i else i
  }

  /** One digit moves from the number to the text behind it. */
  lemma PeelDigit(n: nat, base: nat, tail: string)
    requires 2 <= base <= 16
    ensures var c := DIGITS_HEX[n % base];
            Numeral(n, base) + Reversed(tail) ==
            (if n / base == 0 then "" else Numeral(n / base, base)) + Reversed(tail + [c])
    ensures n / base == 0 <==> n < base
  {
    Euclid(n, base);
    ReversedPush(tail, DIGITS_HEX[n % base]);
    if n < base {
      DivUnique(n, base, 0, n);
    }
  }

  ghost predicate Shows(buf: array<char>, at: nat, text: string)
    reads buf
  {
    at + |text| <= buf.Length && forall k :: 0 <= k < |text| ==> buf[at + k] == text[k]
  }

  /** The digit loop of `convert`: least significant first. */
  method DecimalDigits(buf: array<char>, at: nat, value: int) returns (p: nat, ghost text: string)
    requires at + |Numeral(Abs(value), 10)| < buf.Length
    modifies buf
    ensures p == at + |text| && Shows(buf, at, text) && Reversed(text) == Numeral(Abs(value), 10)
    ensures forall k :: 0 <= k < at || p <= k < buf.Length ==> buf[k] == old(buf[k])
  {
    hide Numeral, CDiv, CMod, Reversed;
    var i := value;
    var more := true;
    p, text := at, "";
    assert Numeral(Abs(i), 10) + Reversed(text) == Numeral(Abs(value), 10);
    while more
      invariant p == at + |text| < buf.Length && Shows(buf, at, text)
      invariant (if more then Numeral(Abs(i), 10) else "") + Reversed(text) == Numeral(Abs(value), 10)
      invariant forall k :: 0 <= k < at || p <= k < buf.Length ==> buf[k] == old(buf[k])
      decreases more, Abs(i)
    {
      var lsd := CMod(i, 10);
      SignedDigit(i);
      PeelDigit(Abs(i), 10, text);
      assert |Numeral(Abs(i), 10)| + |text| == |Numeral(Abs(value), 10)|;
      i := CDiv(i, 10);
      buf[p], text := DIGITS[9 + lsd], text + [DIGITS[9 + lsd]];
      p := p + 1;
      more := i != 0;
    }
    assert "" + Reversed(text) == Reversed(text);
  }

  /** `*p = '\0'` and the final reversal. */
  method Terminate(buf: array<char>, at: nat, p: nat, ghost text: string) returns (len: nat)
    requires p == at + |text| < buf.Length && Shows(buf, at, text)
    modifies buf
    ensures len == |text| && buf[at..at + len] == Reversed(text) && buf[at + len] == '\0'
    ensures buf[..at] == old(buf[..at]) && buf[p + 1..] == old(buf[p + 1..])
  {
    buf[p] := '\0';
    assert buf[at..p] == text;
    Reverse(buf, at, p);
    len := p - at;
    assert buf[p] == buf[p..][0];
    assert buf[p + 1..] == buf[p..][1..];
  }

  /** Writes the decimal text of `value` and a NUL at `at`, and nothing else. */
  method Convert(buf: array<char>, at: nat, value: int) returns (len: nat)
    requires at + |Decimal(value)| < buf.Length
    modifies buf
    ensures len == |Decimal(value)| && buf[at..at + len] == Decimal(value) && buf[at + len] == '\0'
    ensures buf[..at] == old(buf[..at]) && buf[at + len + 1..] == old(buf[at + len + 1..])
  {
    hide Numeral, Reversed;
    ghost var before := buf[..];
    ghost var text;
    var p;
    p, text := DecimalDigits(buf, at, value);
    if value < 0 {
      ReversedPush(text, '-');
      buf[p], text := '-', text + ['-'];
      p := p + 1;
    }
    assert buf[..at] == before[..at] && buf[p..] == before[p..];
    assert buf[p + 1..] == before[p + 1..];
    len := Terminate(buf, at, p, text);
  }

  /** The same for hexadecimal digits of an unsigned value. */
  method ConvertHex(buf: array<char>, at: nat, value: nat) returns (len: nat)
    requires at + |Numeral(value, 16)| < buf.Length
    modifies buf
    ensures len == |Numeral(value, 16)| && buf[at..at + len] == Numeral(value, 16) && buf[at + len] == '\0'
    ensures buf[..at] == old(buf[..at]) && buf[at + len + 1..] == old(buf[at + len + 1..])
  {
    hide Numeral, Reversed;
    ghost var before := buf[..];
    var i := value;
    var p := at;
    ghost var text := "";
    var more := true;
    assert Numeral(i, 16) + Reversed(text) == Numeral(value, 16);
    while more
      invariant p == at + |text| < buf.Length && Shows(buf, at, text)
      invariant (if more then Numeral(i, 16) else "") + Reversed(text) == Numeral(value, 16)
      invariant forall k :: 0 <= k < at || p <= k < buf.Length ==> buf[k] == before[k]
      decreases more, i
    {
      var lsd := i % 16;
      PeelDigit(i, 16, text);
      assert |Numeral(i, 16)| + |text| == |Numeral(value, 16)|;
      i := i / 16;
      buf[p], text := DIGITS_HEX[lsd], text + [DIGITS_HEX[lsd]];
      p := p + 1;
      more := i != 0;
    }
    assert "" + Reversed(text) == Reversed(text);
    assert buf[..at] == before[..at] && buf[p + 1..] == before[p + 1..];
    len := Terminate(buf, at, p, text);
  }
}

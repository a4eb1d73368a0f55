/** ULIDs: a 48-bit timestamp and 80 random bits in Crockford base 32
    (store/ulid.go:15-49). Words are natural numbers below 2^64. */
module Ulid {
  import opened Text

  const CROCKFORD := "0123456789ABCDEFGHJKMNPQRSTVWXYZ"

  type Byte = x: int | 0 <= x < 256

  const TWO_48: nat := 0x1_0000_0000_0000
  const TWO_59: nat := 0x800_0000_0000_0000
  const TWO_64: nat := 0x1_0000_0000_0000_0000
  const TWO_80: nat := 0x1_0000_0000_0000_0000_0000
  const TWO_128: nat := 0x1_0000_0000_0000_0000_0000_0000_0000_0000

  function BigEndian(b: seq<Byte>): nat {
    if b == [] then 0 else 256 * BigEndian(b[..|b| - 1]) + b[|b| - 1]
  }

  function Digit(v: nat): char {
    CROCKFORD[v % 32]
  }

  /** The `n` low base-32 digits of `v`, most significant first. */
  function Digits(v: nat, n: nat): (s: string)
    ensures |s| == n
  {
    if n == 0 then "" else Digits(v / 32, n - 1) + [Digit(v)]
  }

  /** `v` shifted right by `k` digits. */
  function Shift(v: nat, k: nat): nat {
    if k == 0 then v else Shift(v / 32, k - 1)
  }

  function Pow(base: nat, k: nat): nat {
    if k == 0 then 1 else base * Pow(base, k - 1)
  }

  lemma {:induction false} PowAdd(base: nat, m: nat, n: nat)
    ensures Pow(base, m + n) == Pow(base, m) * Pow(base, n)
  {
    if m > 0 {
      PowAdd(base, m - 1, n);
      Regroup(base, Pow(base, m - 1), Pow(base, n));
    }
  }

  lemma Regroup(a: nat, b: nat, c: nat)
    ensures a * (b * c) == a * b * c
  {}

  /** 26 digits have room for 130 bits. */
  lemma {:induction false} DigitsHaveRoom()
    ensures Pow(32, 26) == 4 * TWO_128
  {
    PowAdd(32, 13, 13);
    assert Pow(32, 13) == 2 * TWO_64;
  }

  lemma {:induction false} ShiftOnce(v: nat, k: nat)
    ensures Shift(v, k + 1) == Shift(v, k) / 32
  {
    if k > 0 { ShiftOnce(v / 32, k - 1); }
  }

  /** The next digit to the left is the low digit of the shifted value. */
  lemma {:induction false} DigitsGrowLeft(v: nat, k: nat)
    ensures Digits(v, k + 1) == [Digit(Shift(v, k))] + Digits(v, k)
  {
    if k > 0 {
      DigitsGrowLeft(v / 32, k - 1);
    }
  }

  /** Bitwise or. */
  function Or(a: nat, b: nat): nat {
    if a == 0 && b == 0 then 0 else 2 * Or(a / 2, b / 2) + if a % 2 == 1 || b % 2 == 1 then 1 else 0
  }

  lemma {:induction false} OrZero(b: nat)
    ensures Or(0, b) == b
  {
    if b > 0 { OrZero(b / 2); }
  }

  /** Or-ing bits in is adding them where they do not overlap: one number below
      2^k, the other a multiple of it. */
  lemma {:induction false} OrIsSum(a: nat, q: nat, k: nat)
    requires a < Pow(2, k)
    ensures Or(a, q * Pow(2, k)) == a + q * Pow(2, k)
    decreases k
  {
    if k == 0 {
      OrZero(q);
    } else {
      var b := q * Pow(2, k - 1);
      OrIsSum(a / 2, q, k - 1);
      Doubled(q, Pow(2, k - 1));
      assert q * Pow(2, k) == 2 * b && 2 * b / 2 == b && 2 * b % 2 == 0;
    }
  }

  lemma Doubled(q: nat, p: nat)
    ensures q * (2 * p) == 2 * (q * p)
  {}

  /** What `(lo >> 5) | (hi << 59)` leaves in the low word. */
  function Carried(hi: nat, lo: nat): nat {
    Or(lo / 32, (hi * TWO_59) % TWO_64)
  }

  lemma {:induction false} LowBitsMoveUp(hi: nat)
    ensures (hi * TWO_59) % TWO_64 == hi % 32 * TWO_59
  {
    Remainder(hi / 32, hi % 32 * TWO_59);
  }

  lemma Remainder(q: nat, x: nat)
    requires x < TWO_64
    ensures (q * TWO_64 + x) % TWO_64 == x
  {}

  lemma {:induction false} TwoTo59()
    ensures Pow(2, 59) == TWO_59
  {
    PowAdd(2, 15, 15);
    PowAdd(2, 30, 15);
    PowAdd(2, 45, 14);
    assert Pow(2, 15) == 0x8000 && Pow(2, 14) == 0x4000;
  }

  lemma {:induction false} CarriedIsSum(hi: nat, lo: nat)
    requires lo < TWO_64
    ensures Carried(hi, lo) == lo / 32 + hi % 32 * TWO_59 < TWO_64
  {
    hide Or, Pow;
    LowBitsMoveUp(hi);
    TwoTo59();
    OrIsSum(lo / 32, hi % 32, 59);
  }

  /** One round of the loop divides the 128-bit value by 32, and the low word holds
      its last digit. */
  lemma {:induction false} RoundDivides(hi: nat, lo: nat)
    requires lo < TWO_64
    ensures Carried(hi, lo) < TWO_64 && hi / 32 * TWO_64 + Carried(hi, lo) == (hi * TWO_64 + lo) / 32
    ensures lo % 32 == (hi * TWO_64 + lo) % 32
  {
    CarriedIsSum(hi, lo);
    hide Carried;
  }

  /** One round writes one more digit in front. */
  lemma {:induction false} RoundWritesDigit(hi: nat, lo: nat, v: nat, k: nat)
    requires lo < TWO_64 && hi * TWO_64 + lo == Shift(v, k)
    ensures Carried(hi, lo) < TWO_64 && hi / 32 * TWO_64 + Carried(hi, lo) == Shift(v, k + 1)
    ensures [CROCKFORD[lo % 32]] + Digits(v, k) == Digits(v, k + 1)
  {
    hide Carried;
    RoundDivides(hi, lo);
    ShiftOnce(v, k);
    DigitsGrowLeft(v, k);
  }

  method EncodeCrockford(b: seq<Byte>) returns (s: string)
    requires |b| == 16
    ensures s == Digits(BigEndian(b), 26)
  {
    hide Carried, Digits, Shift, BigEndian;
    var out := new char[26];
    var hi: nat, lo: nat := BigEndian(b[0..8]), BigEndian(b[8..16]);
    ghost var v := BigEndian(b);
    StartOfEncoding(b);
    var i := 26;
    while i > 0
      invariant 0 <= i <= 26 && lo < TWO_64
      invariant hi * TWO_64 + lo == Shift(v, 26 - i)
      invariant out[i..] == Digits(v, 26 - i)
    {
      i := i - 1;
      RoundWritesDigit(hi, lo, v, 25 - i);
      out[i] := CROCKFORD[lo % 32];
      assert out[i..] == [out[i]] + out[i + 1..];
      hi, lo := hi / 32, Carried(hi, lo);
    }
    s := out[..];
    assert out[..] == out[0..];
  }

  lemma {:induction false} StartOfEncoding(b: seq<Byte>)
    requires |b| == 16
    ensures BigEndian(b[8..16]) < TWO_64
    ensures BigEndian(b[0..8]) * TWO_64 + BigEndian(b[8..16]) == Shift(BigEndian(b), 0)
    ensures Digits(BigEndian(b), 0) == ""
  {
    BigEndianBound(b[8..16]);
    SplitWords(b);
  }

  lemma {:induction false} BigEndianBound(b: seq<Byte>)
    ensures BigEndian(b) < Pow(256, |b|)
    ensures |b| == 8 ==> BigEndian(b) < TWO_64
    ensures |b| == 10 ==> BigEndian(b) < TWO_80
    ensures |b| == 16 ==> BigEndian(b) < TWO_128
  {
    if b != [] { BigEndianBound(b[..|b| - 1]); }
    assert Pow(256, 8) == TWO_64;
    assert Pow(256, 10) == TWO_80;
    assert Pow(256, 16) == TWO_128;
  }

  lemma {:induction false} BigEndianConcat(a: seq<Byte>, b: seq<Byte>)
    ensures BigEndian(a + b) == BigEndian(a) * Pow(256, |b|) + BigEndian(b)
  {
    if b == [] {
      assert a + b == a;
    } else {
      var init := b[..|b| - 1];
      BigEndianConcat(a, init);
      assert (a + b)[..|a + b| - 1] == a + init;
      Distribute(BigEndian(a), Pow(256, |init|));
    }
  }

  lemma Distribute(a: nat, p: nat)
    ensures 256 * (a * p) == a * (256 * p)
  {}

  lemma {:induction false} SplitWords(b: seq<Byte>)
    requires |b| == 16
    ensures BigEndian(b) == BigEndian(b[0..8]) * TWO_64 + BigEndian(b[8..16])
  {
    BigEndianConcat(b[0..8], b[8..16]);
    assert b == b[0..8] + b[8..16];
    assert Pow(256, 8) == TWO_64;
  }

  // ------------------------------------------------------------------------
  // Order

  lemma {:induction false} DigitOrder(u: nat, v: nat)
    ensures Digit(u) < Digit(v) <==> u % 32 < v % 32
    ensures Digit(u) == Digit(v) <==> u % 32 == v % 32
  {
    var a, b := u % 32, v % 32;
    Increasing(a, b);
    Increasing(b, a);
  }

  lemma {:induction false} Increasing(a: nat, b: nat)
    requires a < 32 && b < 32
    ensures a < b ==> CROCKFORD[a] < CROCKFORD[b]
    decreases b
  {}

  lemma {:induction false} LessAppend(p: string, x: char, q: string, y: char)
    requires |p| == |q|
    ensures Less(p + [x], q + [y]) <==> Less(p, q) || (p == q && x < y)
  {
    if p != [] {
      assert (p + [x])[1..] == p[1..] + [x] && (q + [y])[1..] == q[1..] + [y];
      LessAppend(p[1..], x, q[1..], y);
      assert p == [p[0]] + p[1..] && q == [q[0]] + q[1..];
    }
  }

  /** Rendered at one width, strings compare exactly as the values do. */
  lemma {:induction false} DigitsOrder(u: nat, v: nat, n: nat)
    requires u < Pow(32, n) && v < Pow(32, n)
    ensures Less(Digits(u, n), Digits(v, n)) <==> u < v
    ensures Digits(u, n) == Digits(v, n) <==> u == v
    decreases n
  {
    if n > 0 {
      DigitsOrder(u / 32, v / 32, n - 1);
      DigitOrder(u, v);
      SplitDigits(u, n);
      SplitDigits(v, n);
      hide Less, Digits, Digit;
      LessAppend(Digits(u / 32, n - 1), Digit(u), Digits(v / 32, n - 1), Digit(v));
      EqualAppend(Digits(u / 32, n - 1), Digit(u), Digits(v / 32, n - 1), Digit(v));
    }
  }

  lemma SplitDigits(v: nat, n: nat)
    requires n > 0
    ensures Digits(v, n) == Digits(v / 32, n - 1) + [Digit(v)]
  {}

  lemma {:induction false} EqualAppend(p: string, x: char, q: string, y: char)
    ensures p + [x] == q + [y] <==> p == q && x == y
  {
    assert (p + [x])[..|p|] == p && (q + [y])[..|q|] == q;
    assert |p| == |q| ==> (p + [x])[|p|] == x && (q + [y])[|p|] == y;
  }

  /** A digit or a capital letter other than I, L, O and U. */
  predicate IsCrockford(c: char) {
    ('0' <= c <= '9' || 'A' <= c <= 'Z') && c !in {'I', 'L', 'O', 'U'}
  }

  /** An id has no other characters; with the order of the digits that fixes all 32. */
  lemma {:induction false} DigitsAreCrockford(v: nat, n: nat)
    ensures forall c :: c in Digits(v, n) ==> IsCrockford(c)
  {
    if n > 0 {
      DigitsAreCrockford(v / 32, n - 1);
      AlphabetIsCrockford(v % 32);
    }
  }

  lemma AlphabetIsCrockford(a: nat)
    requires a < 32
    ensures IsCrockford(CROCKFORD[a])
  {}

  /** What `EncodeCrockford` renders compares as the 128-bit values do, and no two
      values share a string. */
  lemma {:induction false} EncodingKeepsOrder(a: seq<Byte>, b: seq<Byte>)
    requires |a| == |b| == 16
    ensures Less(Digits(BigEndian(a), 26), Digits(BigEndian(b), 26)) <==> BigEndian(a) < BigEndian(b)
    ensures Digits(BigEndian(a), 26) == Digits(BigEndian(b), 26) <==> BigEndian(a) == BigEndian(b)
  {
    BigEndianBound(a);
    BigEndianBound(b);
    DigitsHaveRoom();
    DigitsOrder(BigEndian(a), BigEndian(b), 26);
  }

  // ------------------------------------------------------------------------
  // Decoding

  /** The value of a digit character, the first of the alphabet that equals it. */
  function Undigit(c: char, from: nat): nat
    requires from <= 32
    decreases 32 - from
  {
    if from == 32 then 0 else if CROCKFORD[from] == c then from else Undigit(c, from + 1)
  }

  function Decode(s: string): nat {
    if s == [] then 0 else 32 * Decode(s[..|s| - 1]) + Undigit(s[|s| - 1], 0)
  }

  lemma {:induction false} UndigitDigit(a: nat, from: nat)
    requires from <= a < 32
    ensures Undigit(CROCKFORD[a], from) == a
    decreases 32 - from
  {
    if from < a {
      Increasing(from, a);
      UndigitDigit(a, from + 1);
    }
  }

  /** Decoding gives the value back. */
  lemma {:induction false} DecodeDigits(v: nat, n: nat)
    requires v < Pow(32, n)
    ensures Decode(Digits(v, n)) == v
  {
    if n > 0 {
      DecodeDigits(v / 32, n - 1);
      UndigitDigit(v % 32, 0);
      assert Digits(v, n)[..n - 1] == Digits(v / 32, n - 1);
    }
  }

  lemma {:induction false} DecodeEncoding(b: seq<Byte>)
    requires |b| == 16
    ensures Decode(Digits(BigEndian(b), 26)) == BigEndian(b)
  {
    BigEndianBound(b);
    DigitsHaveRoom();
    DecodeDigits(BigEndian(b), 26);
  }

  // ------------------------------------------------------------------------
  // Timestamps

  /** The 48 timestamp bits of a signed millisecond clock. */
  function Stamp(t: int): nat {
    t % TWO_48
  }

  /** The id for clock `t` with ten random bytes. */
  function UlidOf(t: int, tail: seq<Byte>): string {
    Digits(Stamp(t) * TWO_80 + BigEndian(tail), 26)
  }

  method NewULID(t: int, tail: seq<Byte>) returns (s: string)
    requires |tail| == 10
    ensures s == UlidOf(t, tail)
  {
    hide BigEndian, Digits;
    var stamp := TimeBytes(t % TWO_64);
    ClockBits(t);
    JoinWithTail(stamp, tail);
    s := EncodeCrockford(stamp + tail);
  }

  /** The first six bytes. */
  method TimeBytes(ms: nat) returns (b: seq<Byte>)
    ensures |b| == 6 && BigEndian(b) == ms % TWO_48
  {
    hide BigEndian, BytesOf;
    b := [
      ms / 0x100_0000_0000 % 256, ms / 0x1_0000_0000 % 256, ms / 0x100_0000 % 256,
      ms / 0x1_0000 % 256, ms / 0x100 % 256, ms % 256];
    StampBytes(ms, b);
    BytesValue(ms, 6);
    SixBytesSize();
  }

  lemma SixBytesSize()
    ensures Pow(256, 6) == TWO_48
  {}

  lemma ClockBits(t: int)
    ensures t % TWO_64 % TWO_48 == t % TWO_48
  {}

  lemma {:induction false} JoinWithTail(stamp: seq<Byte>, tail: seq<Byte>)
    requires |tail| == 10
    ensures BigEndian(stamp + tail) == BigEndian(stamp) * TWO_80 + BigEndian(tail)
  {
    BigEndianConcat(stamp, tail);
    assert Pow(256, 10) == TWO_80;
  }

  /** The `n` low bytes of `v`, most significant first. */
  function BytesOf(v: nat, n: nat): seq<Byte> {
    if n == 0 then [] else BytesOf(v / 256, n - 1) + [v % 256]
  }

  lemma {:induction false} MultipleIsFar(d: int, k: int)
    requires d > 0
    ensures k >= 1 ==> d * k >= d
    ensures k <= -1 ==> d * k <= -d
  {}

  lemma {:induction false} DivUnique(x: nat, d: nat, q: nat, r: nat)
    requires x == d * q + r && r < d
    ensures x / d == q && x % d == r
  {
    var q', r' := x / d, x % d;
    assert x == d * q' + r';
    assert d * (q - q') == r' - r;
    MultipleIsFar(d, q - q');
  }

  lemma {:induction false} ModSplit(v: nat, p: nat)
    requires p > 0
    ensures 256 * (v / 256 % p) + v % 256 == v % (256 * p)
  {
    var q, r := v / 256 / p, 256 * (v / 256 % p) + v % 256;
    assert v / 256 == p * q + v / 256 % p;
    assert 256 * (p * q) == (256 * p) * q;
    DivUnique(v, 256 * p, q, r);
  }

  lemma {:induction false} BytesValue(v: nat, n: nat)
    ensures Pow(256, n) > 0 && BigEndian(BytesOf(v, n)) == v % Pow(256, n)
  {
    if n > 0 {
      BytesValue(v / 256, n - 1);
      ModSplit(v, Pow(256, n - 1));
      assert BytesOf(v, n)[..|BytesOf(v, n)| - 1] == BytesOf(v / 256, n - 1);
    }
  }

  /** The shifts of the source pick out the six low bytes. */
  lemma {:induction false} StampBytes(ms: nat, b: seq<Byte>)
    requires b == [
      ms / 0x100_0000_0000 % 256, ms / 0x1_0000_0000 % 256, ms / 0x100_0000 % 256,
      ms / 0x1_0000 % 256, ms / 0x100 % 256, ms % 256]
    ensures b == BytesOf(ms, 6)
  {
    var d1, d2, d3, d4, d5 := ms / 0x100, ms / 0x1_0000, ms / 0x100_0000, ms / 0x1_0000_0000, ms / 0x100_0000_0000;
    DivTwice(ms, 0x100);
    DivTwice(ms, 0x1_0000);
    DivTwice(ms, 0x100_0000);
    DivTwice(ms, 0x1_0000_0000);
    hide BytesOf;
    assert BytesOf(ms, 6) == [d5 % 256, d4 % 256, d3 % 256, d2 % 256, d1 % 256, ms % 256] by {
      SixBytes(ms, d1, d2, d3, d4, d5);
    }
  }

  lemma {:induction false} DivTwice(ms: nat, c: nat)
    requires c > 0
    ensures ms / (c * 256) == ms / c / 256
  {
    var q, r := ms / c, ms % c;
    NestedDivision(ms, c, q, r, q / 256, q % 256);
    DivUnique(ms, c * 256, q / 256, c * (q % 256) + r);
  }

  lemma {:induction false} NestedDivision(ms: nat, c: nat, q: nat, r: nat, q2: nat, r2: nat)
    requires ms == c * q + r && r < c && q == 256 * q2 + r2 && r2 < 256
    ensures ms == (c * 256) * q2 + (c * r2 + r) && c * r2 + r < c * 256
  {}

  lemma {:induction false} SixBytes(d0: nat, d1: nat, d2: nat, d3: nat, d4: nat, d5: nat)
    requires d1 == d0 / 256 && d2 == d1 / 256 && d3 == d2 / 256 && d4 == d3 / 256 && d5 == d4 / 256
    ensures BytesOf(d0, 6) == [d5 % 256, d4 % 256, d3 % 256, d2 % 256, d1 % 256, d0 % 256]
  {
    assert BytesOf(d5, 1) == [d5 % 256];
    assert BytesOf(d4, 2) == BytesOf(d5, 1) + [d4 % 256];
    assert BytesOf(d3, 3) == BytesOf(d4, 2) + [d3 % 256];
    assert BytesOf(d2, 4) == BytesOf(d3, 3) + [d2 % 256];
    assert BytesOf(d1, 5) == BytesOf(d2, 4) + [d1 % 256];
    assert BytesOf(d0, 6) == BytesOf(d1, 5) + [d0 % 256];
  }

  /** Ids sort by timestamp first and by their random bits within one millisecond. */
  lemma {:induction false} UlidOrder(t: int, a: seq<Byte>, u: int, b: seq<Byte>)
    requires |a| == |b| == 10
    ensures Less(UlidOf(t, a), UlidOf(u, b)) <==>
            Stamp(t) < Stamp(u) || (Stamp(t) == Stamp(u) && BigEndian(a) < BigEndian(b))
  {
    hide Less;
    BigEndianBound(a);
    BigEndianBound(b);
    DigitsHaveRoom();
    DigitsOrder(Stamp(t) * TWO_80 + BigEndian(a), Stamp(u) * TWO_80 + BigEndian(b), 26);
  }

  /** One clock value sorts before another whatever the random bits iff its 48 low
      bits are smaller: for clocks within 0 to 2^48, iff it is earlier. */
  lemma {:induction false} SortsBeforeIff(t: int, u: int)
    ensures (forall a: seq<Byte>, b: seq<Byte> :: |a| == |b| == 10 ==> Less(UlidOf(t, a), UlidOf(u, b)))
       <==> Stamp(t) < Stamp(u)
    ensures 0 <= t < TWO_48 && 0 <= u < TWO_48 ==> (Stamp(t) < Stamp(u) <==> t < u)
  {
    hide Less, UlidOf;
    forall a: seq<Byte>, b: seq<Byte> | |a| == |b| == 10
      ensures Less(UlidOf(t, a), UlidOf(u, b)) <==>
              Stamp(t) < Stamp(u) || (Stamp(t) == Stamp(u) && BigEndian(a) < BigEndian(b))
    {
      UlidOrder(t, a, u, b);
    }
    var z: seq<Byte> := [0, 0, 0, 0, 0, 0, 0, 0, 0, 0];
    assert |z| == 10 && !(BigEndian(z) < BigEndian(z));
  }
}

/** Integers as big-endian two's-complement bytes, as the fixture generators write
    them (`scripts/generate_e2e_phase1.py`, `scripts/generate_e2e_collections.py`). */
module Varint {

  predicate IsBytes(b: seq<int>) { forall i :: 0 <= i < |b| ==> 0 <= b[i] < 256 }

  function Pow(n: nat): (r: int)
    ensures r > 0
  {
    if n == 0 then 1 else 256 * Pow(n - 1)
  }

  function Unsigned(b: seq<int>): int {
    if b == [] then 0 else Unsigned(b[..|b| - 1]) * 256 + b[|b| - 1]
  }

  /** The integer that the bytes stand for. */
  function Decode(b: seq<int>): int
    requires b != []
  {
    if b[0] < 128 then Unsigned(b) else Unsigned(b) - Pow(|b|)
  }

  /** No leading byte only repeats the sign of the next one. */
  predicate Canonical(b: seq<int>) {
    b != [] && (|b| > 1 ==> !(b[0] == 0 && b[1] < 128) && !(b[0] == 255 && b[1] >= 128))
  }

  // ----- the value of bytes -----

  lemma {:induction false} UnsignedRange(b: seq<int>)
    requires IsBytes(b)
    ensures 0 <= Unsigned(b) < Pow(|b|)
  {
    if b != [] { UnsignedRange(b[..|b| - 1]); }
  }

  lemma {:induction false} PowStep(n: nat)
    ensures Pow(n + 1) == 256 * Pow(n)
  {
  }

  lemma {:induction false} UnsignedSnoc(b: seq<int>, x: int)
    ensures Unsigned(b + [x]) == Unsigned(b) * 256 + x
  {
    assert (b + [x])[..|b|] == b;
  }

  lemma {:induction false} Scaled(x: int, p: int, q: int)
    requires q == 256 * p
    ensures x * p * 256 == x * q
  {
  }

  lemma {:induction false} UnsignedCons(x: int, b: seq<int>)
    ensures Unsigned([x] + b) == x * Pow(|b|) + Unsigned(b)
  {
    if b == [] {
      UnsignedSnoc([], x);
      assert [] + [x] == [x] + b;
    } else {
      var init, y := b[..|b| - 1], b[|b| - 1];
      UnsignedCons(x, init);
      UnsignedSnoc(init, y);
      UnsignedSnoc([x] + init, y);
      assert [x] + b == [x] + init + [y] && b == init + [y];
      hide *;
      PowStep(|init|);
      Scaled(x, Pow(|init|), Pow(|b|));
      Expand(x * Pow(|init|), Unsigned(init));
    }
  }

  lemma {:induction false} Expand(a: int, b: int)
    ensures (a + b) * 256 == a * 256 + b * 256
  {
  }

  lemma {:induction false} UnsignedInjective(a: seq<int>, b: seq<int>)
    requires IsBytes(a) && IsBytes(b) && |a| == |b| && Unsigned(a) == Unsigned(b)
    ensures a == b
  {
    if a != [] {
      var n := |a| - 1;
      assert a == a[..n] + [a[n]] && b == b[..n] + [b[n]];
      SameDigits(Unsigned(a[..n]), a[n], Unsigned(b[..n]), b[n]);
      UnsignedInjective(a[..n], b[..n]);
    }
  }

  lemma {:induction false} SameDigits(p: int, x: int, q: int, y: int)
    requires 0 <= x < 256 && 0 <= y < 256 && p * 256 + x == q * 256 + y
    ensures p == q && x == y
  {
  }

  lemma {:induction false} TopByte(b: seq<int>)
    requires b != [] && IsBytes(b)
    ensures b[0] * Pow(|b| - 1) <= Unsigned(b) < (b[0] + 1) * Pow(|b| - 1)
  {
    assert b == [b[0]] + b[1..];
    UnsignedCons(b[0], b[1..]);
    UnsignedRange(b[1..]);
    assert (b[0] + 1) * Pow(|b| - 1) == b[0] * Pow(|b| - 1) + Pow(|b| - 1);
  }

  lemma {:induction false} Scale(a: int, b: int, p: int)
    requires a <= b && p > 0
    ensures a * p <= b * p
  {
  }

  /** n bytes hold the integers from -256^n/2 up to 256^n/2. */
  lemma {:induction false} DecodeRange(b: seq<int>)
    requires b != [] && IsBytes(b)
    ensures -Pow(|b|) <= 2 * Decode(b) < Pow(|b|)
    ensures Decode(b) < 0 <==> b[0] >= 128
  {
    hide Unsigned, Pow;
    TopByte(b);
    UnsignedRange(b);
    PowStep(|b| - 1);
    var p := Pow(|b| - 1);
    if b[0] < 128 { Scale(b[0] + 1, 128, p); } else { Scale(128, b[0], p); }
  }

  /** Dropping a byte from a canonical string loses the value. */
  lemma {:induction false} CanonicalWide(b: seq<int>)
    requires IsBytes(b) && Canonical(b) && |b| > 1
    ensures 2 * Decode(b) >= Pow(|b| - 1) || 2 * Decode(b) < -Pow(|b| - 1)
  {
    hide Unsigned, Pow;
    var t := b[1..];
    var p, q := Pow(|t|), Pow(|t| - 1);
    assert b == [b[0]] + t && b[1] == t[0];
    UnsignedCons(b[0], t);
    UnsignedRange(t);
    TopByte(t);
    PowStep(|t| - 1);
    PowStep(|t|);
    if t[0] >= 128 { Scale(128, t[0], q); } else { Scale(t[0] + 1, 128, q); }
    if b[0] == 0 {
      assert b[0] * p == 0;
    } else if b[0] == 255 {
      assert b[0] * p == 255 * p;
    } else if b[0] < 128 {
      Scale(1, b[0], p);
    } else {
      Scale(b[0], 254, p);
    }
  }

  lemma {:induction false} PowMonotone(m: nat, n: nat)
    requires m <= n
    ensures Pow(m) <= Pow(n)
  {
    if m < n { PowMonotone(m, n - 1); PowStep(n - 1); }
  }

  /** Nothing shorter stands for the same integer. */
  lemma {:induction false} CanonicalShortest(b: seq<int>, c: seq<int>)
    requires IsBytes(b) && IsBytes(c) && Canonical(b) && c != [] && Decode(b) == Decode(c)
    ensures |b| <= |c|
  {
    hide Unsigned, Pow, Decode;
    if |c| < |b| {
      CanonicalWide(b);
      DecodeRange(c);
      PowMonotone(|c|, |b| - 1);
    }
  }

  /** Two canonical strings for one integer are the same string. */
  lemma {:induction false} CanonicalUnique(b: seq<int>, c: seq<int>)
    requires IsBytes(b) && IsBytes(c) && Canonical(b) && Canonical(c) && Decode(b) == Decode(c)
    ensures b == c
  {
    CanonicalShortest(b, c);
    CanonicalShortest(c, b);
    DecodeRange(b);
    DecodeRange(c);
    UnsignedInjective(b, c);
  }

  // ----- hexadecimal text -----

  /** The digits of `hex(v)` without the prefix. */
  function HexDigits(v: nat): (d: seq<int>)
    ensures d != [] && forall i :: 0 <= i < |d| ==> 0 <= d[i] < 16
    ensures v > 0 ==> d[0] > 0
  {
    if v < 16 then [v] else HexDigits(v / 16) + [v % 16]
  }

  function EvenDigits(v: nat): seq<int> {
    var d := HexDigits(v);
    if |d| % 2 == 1 then [0] + d else d
  }

  /** Each two digits are a byte. */
  function PairUp(d: seq<int>): seq<int>
    requires |d| % 2 == 0
  {
    if d == [] then [] else PairUp(d[..|d| - 2]) + [d[|d| - 2] * 16 + d[|d| - 1]]
  }

  function HexBytes(v: nat): seq<int> { PairUp(EvenDigits(v)) }

  function HexValue(d: seq<int>): int {
    if d == [] then 0 else HexValue(d[..|d| - 1]) * 16 + d[|d| - 1]
  }

  lemma {:induction false} HexDigitsValue(v: nat)
    ensures HexValue(HexDigits(v)) == v
  {
    if v < 16 {
      assert HexDigits(v)[..0] == [];
    } else {
      HexDigitsValue(v / 16);
      var d := HexDigits(v);
      assert d[..|d| - 1] == HexDigits(v / 16);
    }
  }

  lemma {:induction false} HexPad(d: seq<int>)
    ensures HexValue([0] + d) == HexValue(d)
  {
    if d == [] {
      assert ([0] + d)[..0] == [];
    } else {
      assert ([0] + d)[..|d|] == [0] + d[..|d| - 1];
      HexPad(d[..|d| - 1]);
    }
  }

  lemma {:induction false} PairUpValue(d: seq<int>)
    requires |d| % 2 == 0 && forall i :: 0 <= i < |d| ==> 0 <= d[i] < 16
    ensures IsBytes(PairUp(d)) && |PairUp(d)| == |d| / 2 && Unsigned(PairUp(d)) == HexValue(d)
  {
    if d != [] {
      var n := |d|;
      var init, x, y := d[..n - 2], d[n - 2], d[n - 1];
      PairUpValue(init);
      UnsignedSnoc(PairUp(init), x * 16 + y);
      assert d[..n - 1][..n - 2] == init;
      assert HexValue(d[..n - 1]) == HexValue(init) * 16 + x;
      assert PairUp(d) == PairUp(init) + [x * 16 + y];
    }
  }

  lemma {:induction false} PairUpFirst(d: seq<int>)
    requires |d| % 2 == 0 && d != []
    ensures PairUp(d) != [] && PairUp(d)[0] == d[0] * 16 + d[1]
  {
    if |d| > 2 { PairUpFirst(d[..|d| - 2]); }
  }

  lemma {:induction false} HexBytesValue(v: nat)
    requires v > 0
    ensures IsBytes(HexBytes(v)) && HexBytes(v) != [] && HexBytes(v)[0] > 0 && Unsigned(HexBytes(v)) == v
  {
    hide PairUp;
    HexDigitsValue(v);
    HexPad(HexDigits(v));
    PairUpValue(EvenDigits(v));
    PairUpFirst(EvenDigits(v));
  }

  // ----- inversion and the carry -----

  function Inverted(b: seq<int>): (r: seq<int>)
    ensures |r| == |b|
  {
    if b == [] then [] else Inverted(b[..|b| - 1]) + [255 - b[|b| - 1]]
  }

  /** One added to the last byte, the carry running to the front. */
  function Increment(b: seq<int>): (r: seq<int>)
    ensures |r| == |b|
  {
    if b == [] then []
    else if b[|b| - 1] == 255 then Increment(b[..|b| - 1]) + [0]
    else b[..|b| - 1] + [b[|b| - 1] + 1]
  }

  lemma {:induction false} InvertedValue(b: seq<int>)
    requires IsBytes(b)
    ensures IsBytes(Inverted(b)) && |Inverted(b)| == |b| && Unsigned(Inverted(b)) == Pow(|b|) - 1 - Unsigned(b)
    ensures b != [] ==> Inverted(b)[0] == 255 - b[0]
  {
    if b != [] {
      var init := b[..|b| - 1];
      InvertedValue(init);
      var r := Inverted(b);
      assert r[..|r| - 1] == Inverted(init);
    }
  }

  lemma {:induction false} IncrementValue(b: seq<int>)
    requires IsBytes(b) && Unsigned(b) + 1 < Pow(|b|)
    ensures IsBytes(Increment(b)) && |Increment(b)| == |b| && Unsigned(Increment(b)) == Unsigned(b) + 1
  {
    var n := |b| - 1;
    var r := Increment(b);
    UnsignedRange(b[..n]);
    if b[n] == 255 {
      IncrementValue(b[..n]);
      assert r[..n] == Increment(b[..n]);
    } else {
      assert r[..n] == b[..n];
    }
  }

  /** The carry loop, in place; `carry` comes back as one only from all-ones bytes. */
  method AddOne(b: seq<int>) returns (inverted: seq<int>, carry: int)
    requires IsBytes(b)
    ensures inverted == Increment(b)
    ensures carry == if forall k :: 0 <= k < |b| ==> b[k] == 255 then 1 else 0
  {
    inverted := b;
    carry := 1;
    var i := |b|;
    assert b[..i] == b && Increment(b) + [] == Increment(b);
    while i > 0
      invariant 0 <= i <= |b| == |inverted| && carry == 1
      invariant inverted[..i] == b[..i]
      invariant forall k :: i <= k < |b| ==> b[k] == 255
      invariant Increment(b) == Increment(b[..i]) + inverted[i..]
    {
      i := i - 1;
      assert b[..i + 1][..i] == b[..i] && inverted[i] == inverted[..i + 1][i] == b[i];
      var tail := inverted[i + 1..];
      inverted := inverted[i := inverted[i] + carry];
      if inverted[i] > 255 {
        inverted := inverted[i := inverted[i] % 256];
        assert inverted[i..] == [0] + tail;
      } else {
        carry := 0;
        assert inverted == b[..i] + [b[i] + 1] + tail;
        break;
      }
    }
  }

  /** Invert and add one: the bytes of 256^n less the value, with no carry lost. */
  lemma {:induction false} NegatedValue(p: seq<int>)
    requires IsBytes(p) && p != [] && p[0] > 0
    ensures var r := Increment(Inverted(p));
            IsBytes(r) && |r| == |p| && Unsigned(r) == Pow(|p|) - Unsigned(p)
    ensures exists k :: 0 <= k < |p| && Inverted(p)[k] < 255
  {
    InvertedValue(p);
    TopByte(p);
    Scale(1, p[0], Pow(|p| - 1));
    IncrementValue(Inverted(p));
    assert Inverted(p)[0] < 255;
  }

  lemma {:induction false} PaddedDecode(b: seq<int>)
    requires IsBytes(b) && b != []
    ensures b[0] >= 128 ==> Decode([0] + b) == Unsigned(b)
    ensures b[0] < 128 ==> Decode([255] + b) == Unsigned(b) - Pow(|b|)
  {
    hide Unsigned, Pow;
    UnsignedCons(0, b);
    UnsignedCons(255, b);
    PowStep(|b|);
  }

  /** A negated value never has a byte to spare. */
  lemma {:induction false} NegatedTop(p: seq<int>)
    requires IsBytes(p) && |p| > 1 && p[0] > 0
    ensures var r := Increment(Inverted(p)); r[0] == 255 ==> r[1] < 128
  {
    hide Unsigned, Pow, Increment, Inverted;
    NegatedValue(p);
    var r := Increment(Inverted(p));
    var t := r[1..];
    TopByte(p);
    Scale(1, p[0], Pow(|t|));
    PowStep(|t|);
    assert r == [r[0]] + t && t[0] == r[1];
    UnsignedCons(r[0], t);
    TopByte(t);
    if r[0] == 255 {
      assert Unsigned(t) <= 0;
      if t[0] > 0 { Scale(1, t[0], Pow(|t| - 1)); }
    }
  }

  lemma {:induction false} EncodePositive(v: nat)
    requires v > 0
    ensures var h := HexBytes(v);
            h != [] && var r := if h[0] >= 128 then [0] + h else h;
            IsBytes(r) && Canonical(r) && Decode(r) == v
  {
    hide HexBytes, Unsigned, Pow;
    HexBytesValue(v);
    PaddedDecode(HexBytes(v));
  }

  lemma {:induction false} EncodeNegative(v: nat)
    requires v > 0
    ensures HexBytes(v) != [] && IsBytes(HexBytes(v)) && IsBytes(Inverted(HexBytes(v)))
    ensures exists k :: 0 <= k < |HexBytes(v)| && Inverted(HexBytes(v))[k] < 255
    ensures var n := Increment(Inverted(HexBytes(v)));
            var r := if n[0] < 128 then [255] + n else n;
            IsBytes(r) && Canonical(r) && Decode(r) + v == 0
  {
    hide HexBytes, Unsigned, Pow, Increment, Inverted;
    var h := HexBytes(v);
    HexBytesValue(v);
    InvertedValue(h);
    NegatedValue(h);
    if |h| > 1 { NegatedTop(h); }
    var n := Increment(Inverted(h));
    PaddedDecode(n);
    TopByte(h);
  }

  /** The canonical bytes of any integer. */
  method MakeVarint(value: int) returns (r: seq<int>)
    ensures IsBytes(r) && Canonical(r) && Decode(r) == value
  {
    hide Unsigned, Pow, Increment, Inverted, HexBytes, Decode, Canonical;
    if value == 0 {
      r := [0];
      ZeroByte();
    } else if value > 0 {
      EncodePositive(value);
      r := HexBytes(value);
      if r[0] >= 128 { r := [0] + r; }
    } else {
      EncodeNegative(-value);
      var carry;
      r, carry := AddOne(Inverted(HexBytes(-value)));
      assert carry == 0;
      if r[0] < 128 { r := [255] + r; }
    }
  }

  lemma {:induction false} ZeroByte()
    ensures IsBytes([0]) && Canonical([0]) && Decode([0]) == 0
  {
    UnsignedSnoc([], 0);
    assert [] + [0] == [0];
  }

  datatype Decimal = Decimal(scale: int, unscaled: seq<int>)

  /** The copy in the phase-one generator, from the unscaled integer on. */
  method MakeDecimal(unscaled: int, scale: int) returns (d: Decimal)
    ensures d.scale == scale && IsBytes(d.unscaled) && Canonical(d.unscaled) && Decode(d.unscaled) == unscaled
  {
    hide Unsigned, Pow, Increment, Inverted, HexBytes, Decode, Canonical;
    var b := [0];
    if unscaled == 0 {
      ZeroByte();
    } else if unscaled > 0 {
      EncodePositive(unscaled);
      b := HexBytes(unscaled);
      if b[0] >= 128 { b := [0] + b; }
    } else {
      EncodeNegative(-unscaled);
      var carry;
      b, carry := AddOne(Inverted(HexBytes(-unscaled)));
      if b[0] < 128 { b := [255] + b; }
    }
    d := Decimal(scale, b);
  }

  /** The copy in the collections generator, which returns from each branch. */
  method MakeCollectionDecimal(unscaled: int, scale: int) returns (d: Decimal)
    ensures d.scale == scale && IsBytes(d.unscaled) && Canonical(d.unscaled) && Decode(d.unscaled) == unscaled
  {
    hide Unsigned, Pow, Increment, Inverted, HexBytes, Decode, Canonical;
    if unscaled == 0 {
      ZeroByte();
      return Decimal(scale, [0]);
    } else if unscaled > 0 {
      EncodePositive(unscaled);
      var b := HexBytes(unscaled);
      if b[0] >= 128 { b := [0] + b; }
      return Decimal(scale, b);
    } else {
      EncodeNegative(-unscaled);
      var b, carry := AddOne(Inverted(HexBytes(-unscaled)));
      if b[0] < 128 { b := [255] + b; }
      return Decimal(scale, b);
    }
  }

  /** The three encoders agree on every integer. */
  method EncodersAgree(v: int, scale: int) returns (r: seq<int>, a: Decimal, b: Decimal)
    ensures a.unscaled == r && b.unscaled == r && a == b
  {
    r := MakeVarint(v);
    a := MakeDecimal(v, scale);
    b := MakeCollectionDecimal(v, scale);
    CanonicalUnique(r, a.unscaled);
    CanonicalUnique(r, b.unscaled);
  }
}

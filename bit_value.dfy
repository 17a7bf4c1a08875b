/**
  The bit-value transcoder of the skill-template codec.

  A bit string is a sequence of booleans (`true` stands for the character '1',
  `false` for '0'). A number is written least-significant bit first: its usual
  base-2 digits are reversed and then padded on the right with '0' bits to the
  requested width, never truncated.
 */
module BitValue {

  type Bits = seq<bool>

  function Pow2(n: nat): (r: nat)
    ensures r >= 1
  {
    if n == 0 then 1 else 2 * Pow2(n - 1)
  }

  function Max(a: int, b: int): int {
    if a >= b then a else b
  }

  function BitValueOf(b: bool): nat {
    if b then 1 else 0
  }

  /** `v.toString(2)`: most-significant digit first; zero is the single digit "0". */
  function ToBase2(v: nat): (r: Bits)
    ensures |r| >= 1
    ensures r[0] <==> v > 0
    decreases v
  {
    if v < 2 then [v == 1] else ToBase2(v / 2) + [v % 2 == 1]
  }

  /** `parseInt(s, 2)` on a non-empty string of binary digits; the empty string is read as 0. */
  function ParseBase2(s: Bits): (r: nat)
    ensures r < Pow2(|s|)
  {
    if s == [] then 0 else 2 * ParseBase2(s[..|s| - 1]) + BitValueOf(s[|s| - 1])
  }

  /** `reverseString`: the element at `i` moves to the mirrored index. */
  function Reverse<T>(s: seq<T>): (r: seq<T>)
    ensures |r| == |s|
    ensures forall i :: 0 <= i < |s| ==> r[i] == s[|s| - 1 - i]
  {
    if s == [] then [] else Reverse(s[1..]) + [s[0]]
  }

  /** `padBinaryRight`: append '0' bits up to `length`; a longer string is left whole. */
  function PadRight(s: Bits, length: nat): (r: Bits)
    ensures |r| == Max(length, |s|)
    ensures r[..|s|] == s
    ensures forall i :: |s| <= i < |r| ==> !r[i]
  {
    if length <= |s| then s else s + Zeros(length - |s|)
  }

  function Zeros(n: nat): (r: Bits)
    ensures |r| == n
  {
    seq(n, _ => false)
  }

  /** The number of digits of `v.toString(2)`, i.e. `valueToBinary(v, 0).length`. */
  function BitLen(v: nat): nat {
    |ToBase2(v)|
  }

  /** Reading of a bit string least-significant bit first, the reference for `binaryToValue`. */
  function LsbValue(s: Bits): nat {
    if s == [] then 0 else BitValueOf(s[0]) + 2 * LsbValue(s[1..])
  }

  /** `binaryToValue`: reverse, then parse as base 2. */
  function BinaryToValue(s: Bits): (r: nat)
    ensures r == LsbValue(s)
    ensures r < Pow2(|s|)
  {
    BinaryToValueIsLsb(s);
    LsbValueBound(s);
    ParseBase2(Reverse(s))
  }

  /** The least-significant-bit-first value of the `width` bits of `s` from position `at`. */
  function ValueAt(s: Bits, at: nat, width: nat): nat
    requires at + width <= |s|
    decreases width
  {
    if width == 0 then 0 else BitValueOf(s[at]) + 2 * ValueAt(s, at + 1, width - 1)
  }

  /** Reading a window of a bit string in place is `binaryToValue` of that substring. */
  lemma {:induction false} ValueAtIsBinaryToValue(s: Bits, at: nat, width: nat)
    requires at + width <= |s|
    ensures ValueAt(s, at, width) == BinaryToValue(s[at .. at + width])
    decreases width
  {
    if width > 0 {
      ValueAtIsBinaryToValue(s, at + 1, width - 1);
      assert s[at .. at + width][1..] == s[at + 1 .. at + width];
    }
  }

  /** A window of `width` bits holds a value below 2^width. */
  lemma ValueAtBound(s: Bits, at: nat, width: nat)
    requires at + width <= |s|
    ensures ValueAt(s, at, width) < Pow2(width)
  {
    ValueAtIsBinaryToValue(s, at, width);
  }

  /** A window read as a whole is its first `a` bits plus 2^a times the `b` bits after them. */
  lemma {:induction false} ValueAtSplit(s: Bits, at: nat, a: nat, b: nat)
    requires at + a + b <= |s|
    ensures ValueAt(s, at, a + b) == ValueAt(s, at, a) + Pow2(a) * ValueAt(s, at + a, b)
    decreases a
  {
    if a > 0 {
      ValueAtSplit(s, at + 1, a - 1, b);
      var low, high := ValueAt(s, at + 1, a - 1), ValueAt(s, at + a, b);
      assert ValueAt(s, at + 1, a - 1 + b) == low + Pow2(a - 1) * high;
      assert ValueAt(s, at, a + b) == BitValueOf(s[at]) + 2 * (low + Pow2(a - 1) * high);
      DoubleProduct(Pow2(a - 1), high);
    }
  }

  lemma DoubleProduct(p: nat, h: nat)
    ensures 2 * (p * h) == (2 * p) * h
  {
  }

  /** `valueToBinary`: the LSB-first digits of `v`, padded to `length` and never truncated. */
  function ValueToBinary(v: nat, length: nat): (r: Bits)
    ensures |r| == Max(length, BitLen(v))
  {
    PadRight(Reverse(ToBase2(v)), length)
  }

  lemma {:induction false} ReverseSnoc<T>(s: seq<T>, x: T)
    ensures Reverse(s + [x]) == [x] + Reverse(s)
  {
    if s != [] {
      assert (s + [x])[1..] == s[1..] + [x];
      ReverseSnoc(s[1..], x);
    }
  }

  lemma {:induction false} BinaryToValueIsLsb(s: Bits)
    ensures ParseBase2(Reverse(s)) == LsbValue(s)
  {
    if s != [] {
      var r := Reverse(s);
      assert r == Reverse(s[1..]) + [s[0]];
      assert r[..|r| - 1] == Reverse(s[1..]);
      BinaryToValueIsLsb(s[1..]);
    }
  }

  lemma {:induction false} LsbValueBound(s: Bits)
    ensures LsbValue(s) < Pow2(|s|)
  {
    if s != [] {
      LsbValueBound(s[1..]);
    }
  }

  /** Trailing '0' bits do not change the value. */
  lemma {:induction false} LsbValueZeroTail(s: Bits, n: nat)
    ensures LsbValue(s + Zeros(n)) == LsbValue(s)
  {
    if s == [] {
      assert s + Zeros(n) == Zeros(n);
      LsbValueOfZeros(n);
    } else {
      assert (s + Zeros(n))[1..] == s[1..] + Zeros(n);
      LsbValueZeroTail(s[1..], n);
    }
  }

  lemma {:induction false} LsbValueOfZeros(n: nat)
    ensures LsbValue(Zeros(n)) == 0
  {
    if n > 0 {
      assert Zeros(n)[1..] == Zeros(n - 1);
      LsbValueOfZeros(n - 1);
    }
  }

  /** The reversed base-2 digits of `v`, unfolded from the least-significant end. */
  lemma LsbDigits(v: nat)
    ensures v < 2 ==> Reverse(ToBase2(v)) == [v == 1]
    ensures v >= 2 ==> Reverse(ToBase2(v)) == [v % 2 == 1] + Reverse(ToBase2(v / 2))
  {
    if v >= 2 {
      ReverseSnoc(ToBase2(v / 2), v % 2 == 1);
    }
  }

  lemma {:induction false} LsbDigitsValue(v: nat)
    ensures LsbValue(Reverse(ToBase2(v))) == v
    decreases v
  {
    LsbDigits(v);
    if v >= 2 {
      var d := Reverse(ToBase2(v));
      assert d[1..] == Reverse(ToBase2(v / 2));
      LsbDigitsValue(v / 2);
    }
  }

  /** `binaryToValue(valueToBinary(v, n)) == v` for every width `n`. */
  lemma ValueRoundTrip(v: nat, length: nat)
    ensures BinaryToValue(ValueToBinary(v, length)) == v
  {
    var d := Reverse(ToBase2(v));
    LsbDigitsValue(v);
    var p := PadRight(d, length);
    if length > |d| {
      LsbValueZeroTail(d, length - |d|);
    }
    BinaryToValueIsLsb(p);
  }

  /** A value fits in `w >= 1` bits exactly when it is below 2^w. */
  lemma {:induction false} BitLenBound(v: nat, w: nat)
    requires w >= 1
    ensures BitLen(v) <= w <==> v < Pow2(w)
    decreases v
  {
    if v >= 2 {
      assert BitLen(v) == BitLen(v / 2) + 1;
      if w == 1 {
        assert Pow2(1) == 2;
      } else {
        BitLenBound(v / 2, w - 1);
      }
    }
  }

  /** The LSB-first digits of a value fit in the `w` bits it was read from, and give them back. */
  lemma FixedWidthRoundTrip(s: Bits)
    requires |s| >= 1
    ensures BitLen(BinaryToValue(s)) <= |s|
    ensures ValueToBinary(BinaryToValue(s), |s|) == s
  {
    BitLenBound(BinaryToValue(s), |s|);
    PaddedDigitsOfValue(s);
  }

  lemma {:induction false} PaddedDigitsOfValue(s: Bits)
    requires |s| >= 1
    ensures PadRight(Reverse(ToBase2(LsbValue(s))), |s|) == s
  {
    var v := LsbValue(s);
    var t := s[1..];
    var u := LsbValue(t);
    assert s == [s[0]] + t;
    assert v == BitValueOf(s[0]) + 2 * u;
    LsbDigits(v);
    if u == 0 {
      assert v < 2 && (v == 1) == s[0];
      LsbValueZeroIsZeros(t);
      PadCons(s[0], [], |t|);
      assert PadRight([], |t|) == Zeros(|t|);
    } else {
      assert v >= 2 && v / 2 == u && (v % 2 == 1) == s[0];
      PaddedDigitsOfValue(t);
      PadCons(s[0], Reverse(ToBase2(u)), |t|);
    }
  }

  lemma PadCons(x: bool, d: Bits, n: nat)
    ensures PadRight([x] + d, n + 1) == [x] + PadRight(d, n)
  {
    if n + 1 > |d| + 1 {
      assert [x] + d + Zeros(n - |d|) == [x] + (d + Zeros(n - |d|));
    }
  }

  lemma {:induction false} LsbValueZeroIsZeros(s: Bits)
    requires LsbValue(s) == 0
    ensures s == Zeros(|s|)
  {
    if s != [] {
      LsbValueZeroIsZeros(s[1..]);
    }
  }
}

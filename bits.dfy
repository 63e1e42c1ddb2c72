/**
 * Fixed-width, most-significant-bit-first bit fields: the unit in which
 * the bit streams of the codec read and write numbers.
 */
module Bits {

  /** 2 to the power n. */
  function Pow2(n: nat): (p: nat)
    ensures p >= 1
  {
    if n == 0 then 1 else 2 * Pow2(n - 1)
  }

  /** Powers of two add their exponents when multiplied. */
  lemma {:induction false} Pow2Add(a: nat, b: nat)
    ensures Pow2(a + b) == Pow2(a) * Pow2(b)
    decreases a
  {
    if a > 0 {
      Pow2Add(a - 1, b);
    }
  }

  /** The unsigned number a bit field denotes, first bit most significant. */
  function Value(b: seq<bool>): (v: nat)
    ensures v < Pow2(|b|)
  {
    if b == [] then 0
    else 2 * Value(b[..|b| - 1]) + (if b[|b| - 1] then 1 else 0)
  }

  /** The n-bit field, first bit most significant, that denotes v. */
  function ToBits(v: nat, n: nat): (b: seq<bool>)
    requires v < Pow2(n)
    ensures |b| == n && Value(b) == v
  {
    if n == 0 then []
    else
      var b := ToBits(v / 2, n - 1) + [v % 2 == 1];
      assert b[..n - 1] == ToBits(v / 2, n - 1);
      b
  }

  /** A field is the rendering of its own value: fields of one width and one value are equal. */
  lemma {:induction false} ToBitsOfValue(b: seq<bool>)
    ensures ToBits(Value(b), |b|) == b
  {
    if b != [] {
      var init := b[..|b| - 1];
      ToBitsOfValue(init);
      assert b == init + [b[|b| - 1]];
    }
  }

  /** Two fields of equal width are equal exactly when their values are. */
  lemma ValueInjective(a: seq<bool>, b: seq<bool>)
    requires |a| == |b|
    ensures Value(a) == Value(b) <==> a == b
  {
    if Value(a) == Value(b) {
      ToBitsOfValue(a);
      ToBitsOfValue(b);
    }
  }

  /** Where bits spell x + y from pos, they spell x from pos and y right after it. */
  lemma SliceConcat(bits: seq<bool>, pos: nat, x: seq<bool>, y: seq<bool>)
    requires pos + |x| + |y| <= |bits| && bits[pos..pos + |x| + |y|] == x + y
    ensures bits[pos..pos + |x|] == x
    ensures bits[pos + |x|..pos + |x| + |y|] == y
  {
    var whole := bits[pos..pos + |x| + |y|];
    assert bits[pos..pos + |x|] == whole[..|x|];
    assert bits[pos + |x|..pos + |x| + |y|] == whole[|x|..];
  }

  /** Adjacent slices join into one. */
  lemma SliceSplit(bits: seq<bool>, a: nat, b: nat, c: nat)
    requires a <= b <= c <= |bits|
    ensures bits[a..c] == bits[a..b] + bits[b..c]
  {
  }

  /** Bits spell x + y + z from pos exactly when they spell x, y and z one after the other. */
  lemma SliceConcat3(bits: seq<bool>, pos: nat, x: seq<bool>, y: seq<bool>, z: seq<bool>)
    requires pos + |x| + |y| + |z| <= |bits|
    ensures bits[pos..pos + |x| + |y| + |z|] == x + y + z <==>
      bits[pos..pos + |x|] == x && bits[pos + |x|..pos + |x| + |y|] == y &&
      bits[pos + |x| + |y|..pos + |x| + |y| + |z|] == z
  {
    var b, c, d := pos + |x|, pos + |x| + |y|, pos + |x| + |y| + |z|;
    SliceSplit(bits, pos, b, d);
    SliceSplit(bits, b, c, d);
    if bits[pos..d] == x + y + z {
      SliceConcat(bits, pos, x + y, z);
      SliceConcat(bits, pos, x, y);
    }
  }

  /** The first three parts of x + y + z + w stand at their offsets. */
  lemma ConcatSlices(x: seq<bool>, y: seq<bool>, z: seq<bool>, w: seq<bool>)
    ensures var bits := x + y + z + w;
      bits[0..|x|] == x && bits[|x|..|x| + |y|] == y && bits[|x| + |y|..|x| + |y| + |z|] == z
  {
    var bits := x + y + z + w;
    assert bits[0..|x|] == x;
    assert bits[|x|..|x| + |y|] == y;
    assert bits[|x| + |y|..|x| + |y| + |z|] == z;
  }
}

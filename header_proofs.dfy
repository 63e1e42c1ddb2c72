/**
 * Properties of the tree-header reader. Encode is the pre-order header
 * writer the format implies (a 0 bit then both subtrees for an internal
 * node, a 1 bit then a 9-bit value for a leaf); it is a proof aid, since
 * this revision of the processor never writes a header.
 */
module HeaderProofs {
  import opened Bits
  import opened BitStreams
  import opened HuffProcessor

  /** Leaf values that fit the 9-bit field of the header. */
  predicate Writable(t: Tree)
  {
    LeavesIn(t, 0, Pow2(BitsPerWord + 1))
  }

  /** The pre-order header bits of t. */
  function Encode(t: Tree): (b: seq<bool>)
    requires Writable(t)
    ensures |b| == Size(t)
  {
    match t
    case Leaf(v) => [true] + ToBits(v, BitsPerWord + 1)
    case Node(l, r) => [false] + Encode(l) + Encode(r)
  }

  /** The number of header bits of t: one tag per node, plus a 9-bit field per leaf. */
  function Size(t: Tree): (n: nat)
  {
    match t
    case Leaf(_) => 1 + (BitsPerWord + 1)
    case Node(l, r) => 1 + Size(l) + Size(r)
  }

  /** The bits from pos spell the header of t, field by field. */
  predicate EncodedAt(t: Tree, bits: seq<bool>, pos: nat)
  {
    pos + Size(t) <= |bits| &&
    match t
    case Leaf(v) => bits[pos] && Value(bits[pos + 1..pos + Size(t)]) == v
    case Node(l, r) => !bits[pos] && EncodedAt(l, bits, pos + 1) && EncodedAt(r, bits, pos + 1 + Size(l))
  }

  /** readTree on a 1 tag: the leaf holding the 9-bit field that follows. */
  lemma ReadTreeLeaf(bits: seq<bool>, pos: nat)
    requires pos + 1 + (BitsPerWord + 1) <= |bits| && bits[pos]
    ensures ReadTree(bits, pos) == Ok(Parsed(Leaf(Value(bits[pos + 1..pos + 1 + (BitsPerWord + 1)])), pos + 1 + (BitsPerWord + 1)))
  {
  }

  /**
   * readTree on a 1 tag with fewer than 9 bits left: the unchecked read
   * yields a leaf holding -1 and the input is drained.
   */
  lemma ReadTreeShortLeaf(bits: seq<bool>, pos: nat)
    requires pos < |bits| && bits[pos] && |bits| < pos + 1 + (BitsPerWord + 1)
    ensures ReadTree(bits, pos) == Ok(Parsed(Leaf(-1), |bits|))
  {
  }

  /** readTree with no bit left for the tag fails with InvalidInputStream. */
  lemma ReadTreeAtEnd(bits: seq<bool>)
    ensures ReadTree(bits, |bits|) == Fail(InvalidInputStream)
  {
  }

  /** readTree on a 0 tag: the node of the two subtrees read one after the other. */
  lemma ReadTreeNode(bits: seq<bool>, pos: nat, l: Tree, mid: nat, r: Tree, end: nat)
    requires pos < |bits| && !bits[pos]
    requires ReadTree(bits, pos + 1) == Ok(Parsed(l, mid))
    requires mid <= |bits| && ReadTree(bits, mid) == Ok(Parsed(r, end))
    ensures ReadTree(bits, pos) == Ok(Parsed(Node(l, r), end))
  {
  }

  /** Where the bits spell the header of t, readTree returns t and stops right after it. */
  lemma {:induction false} ReadTreeEncodedAt(t: Tree, bits: seq<bool>, pos: nat)
    requires EncodedAt(t, bits, pos)
    ensures ReadTree(bits, pos) == Ok(Parsed(t, pos + Size(t)))
    decreases t, 1
  {
    match t
    case Leaf(v) =>
      ReadTreeLeaf(bits, pos);
    case Node(l, r) =>
      ReadTreeEncodedAtNode(l, r, bits, pos, pos + 1 + Size(l), pos + Size(t));
  }

  /** The internal-node case of ReadTreeEncodedAt, stated on the spelled children. */
  lemma {:induction false} ReadTreeEncodedAtNode(l: Tree, r: Tree, bits: seq<bool>, pos: nat, mid: nat, end: nat)
    requires mid == pos + 1 + Size(l) && end == mid + Size(r)
    requires pos < |bits| && !bits[pos]
    requires EncodedAt(l, bits, pos + 1) && EncodedAt(r, bits, mid)
    ensures ReadTree(bits, pos) == Ok(Parsed(Node(l, r), end))
    decreases Node(l, r), 0
  {
    ReadTreeEncodedAt(l, bits, pos + 1);
    ReadTreeEncodedAt(r, bits, mid);
    ReadTreeNode(bits, pos, l, mid, r, end);
  }

  /** What readTree returns is spelled by the bits it consumed, when no leaf read came back -1. */
  lemma {:induction false} ReadTreeIsEncodedAt(bits: seq<bool>, pos: nat)
    requires pos <= |bits|
    requires ReadTree(bits, pos).Ok? && Writable(ReadTree(bits, pos).value.tree)
    ensures ReadTree(bits, pos).value.pos == pos + Size(ReadTree(bits, pos).value.tree)
    ensures EncodedAt(ReadTree(bits, pos).value.tree, bits, pos)
    decreases |bits| - pos
  {
    if !bits[pos] {
      var left := ReadTree(bits, pos + 1).value;
      ReadTreeIsEncodedAt(bits, pos + 1);
      ReadTreeIsEncodedAt(bits, left.pos);
    }
  }

  /** A leaf spelled field by field stands at pos as its encoding. */
  lemma LeafEncodedAtIsEncode(v: int, bits: seq<bool>, pos: nat)
    requires EncodedAt(Leaf(v), bits, pos)
    ensures bits[pos..pos + Size(Leaf(v))] == Encode(Leaf(v))
  {
    var end := pos + Size(Leaf(v));
    SliceSplit(bits, pos, pos + 1, end);
    assert bits[pos..pos + 1] == [bits[pos]];
    ToBitsOfValue(bits[pos + 1..end]);
  }

  /** The encoding of a leaf standing at pos spells it field by field. */
  lemma LeafEncodeIsEncodedAt(v: int, bits: seq<bool>, pos: nat)
    requires 0 <= v < Pow2(BitsPerWord + 1)
    requires pos + Size(Leaf(v)) <= |bits| && bits[pos..pos + Size(Leaf(v))] == Encode(Leaf(v))
    ensures EncodedAt(Leaf(v), bits, pos)
  {
    SliceConcat(bits, pos, [true], ToBits(v, BitsPerWord + 1));
    assert bits[pos] == bits[pos..pos + 1][0];
  }

  /** A 0 tag, then el up to mid, then er up to end, spell [false] + el + er. */
  lemma NodeJoin(bits: seq<bool>, pos: nat, el: seq<bool>, er: seq<bool>, mid: nat, end: nat)
    requires mid == pos + 1 + |el| && end == mid + |er| <= |bits|
    requires !bits[pos] && bits[pos + 1..mid] == el && bits[mid..end] == er
    ensures bits[pos..end] == [false] + el + er
  {
    SliceSplit(bits, pos, pos + 1, end);
    SliceSplit(bits, pos + 1, mid, end);
    assert bits[pos..pos + 1] == [false];
  }

  /** Bits spelling [false] + el + er from pos: a 0 tag, then el up to mid, then er up to end. */
  lemma NodeSplit(bits: seq<bool>, pos: nat, el: seq<bool>, er: seq<bool>, mid: nat, end: nat)
    requires mid == pos + 1 + |el| && end == mid + |er| <= |bits|
    requires bits[pos..end] == [false] + el + er
    ensures !bits[pos] && bits[pos + 1..mid] == el && bits[mid..end] == er
  {
    SliceConcat3(bits, pos, [false], el, er);
    assert bits[pos] == bits[pos..pos + 1][0];
  }

  /** Spelling t field by field puts its encoding at pos. */
  lemma {:induction false} EncodedAtIsEncode(t: Tree, bits: seq<bool>, pos: nat)
    requires Writable(t) && EncodedAt(t, bits, pos)
    ensures bits[pos..pos + Size(t)] == Encode(t)
    decreases t, 1
  {
    match t
    case Leaf(v) =>
      LeafEncodedAtIsEncode(v, bits, pos);
    case Node(l, r) =>
      var mid, end := pos + 1 + Size(l), pos + Size(t);
      EncodedAtIsEncodeNode(l, r, bits, pos, mid, end);
      NodeJoin(bits, pos, Encode(l), Encode(r), mid, end);
  }

  /** The internal-node case of EncodedAtIsEncode: both children stand at their places as their encodings. */
  lemma {:induction false} EncodedAtIsEncodeNode(l: Tree, r: Tree, bits: seq<bool>, pos: nat, mid: nat, end: nat)
    requires mid == pos + 1 + Size(l) && end == mid + Size(r)
    requires Writable(l) && Writable(r)
    requires EncodedAt(l, bits, pos + 1) && EncodedAt(r, bits, mid)
    ensures end <= |bits| && bits[pos + 1..mid] == Encode(l) && bits[mid..end] == Encode(r)
    decreases Node(l, r), 0
  {
    EncodedAtIsEncode(l, bits, pos + 1);
    EncodedAtIsEncode(r, bits, mid);
  }

  /** The encoding of t standing at pos spells t field by field. */
  lemma {:induction false} EncodeIsEncodedAt(t: Tree, bits: seq<bool>, pos: nat)
    requires Writable(t)
    requires pos + Size(t) <= |bits| && bits[pos..pos + Size(t)] == Encode(t)
    ensures EncodedAt(t, bits, pos)
    decreases t, 1
  {
    match t
    case Leaf(v) =>
      LeafEncodeIsEncodedAt(v, bits, pos);
    case Node(l, r) =>
      EncodeIsEncodedAtNode(l, r, bits, pos, pos + 1 + Size(l), pos + Size(t));
  }

  /** The internal-node case of EncodeIsEncodedAt: the children's encodings spell them. */
  lemma {:induction false} EncodeIsEncodedAtNode(l: Tree, r: Tree, bits: seq<bool>, pos: nat, mid: nat, end: nat)
    requires mid == pos + 1 + Size(l) && end == mid + Size(r) && end <= |bits|
    requires Writable(l) && Writable(r)
    requires bits[pos..end] == Encode(Node(l, r))
    ensures !bits[pos] && EncodedAt(l, bits, pos + 1) && EncodedAt(r, bits, mid)
    decreases Node(l, r), 0
  {
    NodeSplit(bits, pos, Encode(l), Encode(r), mid, end);
    EncodeIsEncodedAt(l, bits, pos + 1);
    EncodeIsEncodedAt(r, bits, mid);
  }

  /**
   * Header round trip: wherever the encoding of t stands in a stream,
   * readTree returns t and stops just after it, whatever follows.
   */
  lemma ReadTreeEncode(t: Tree, bits: seq<bool>, pos: nat)
    requires Writable(t)
    requires pos + Size(t) <= |bits| && bits[pos..pos + Size(t)] == Encode(t)
    ensures ReadTree(bits, pos) == Ok(Parsed(t, pos + Size(t)))
  {
    EncodeIsEncodedAt(t, bits, pos);
    ReadTreeEncodedAt(t, bits, pos);
  }

  /** Round trip on a stream that starts with the header: exactly the suffix is left unread. */
  lemma ReadTreeEncodeSuffix(t: Tree, suffix: seq<bool>)
    requires Writable(t)
    ensures ReadTree(Encode(t) + suffix, 0) == Ok(Parsed(t, Size(t)))
    ensures (Encode(t) + suffix)[Size(t)..] == suffix
  {
    var bits := Encode(t) + suffix;
    assert bits[0..Size(t)] == Encode(t);
    ReadTreeEncode(t, bits, 0);
  }

  /**
   * readTree reads exactly a header: when every leaf it returns holds a
   * real 9-bit value, the bits it consumed are the encoding of its tree.
   */
  lemma ReadTreeConsumesEncoding(bits: seq<bool>, pos: nat)
    requires pos <= |bits|
    requires ReadTree(bits, pos).Ok? && Writable(ReadTree(bits, pos).value.tree)
    ensures ReadTree(bits, pos).value.pos == pos + Size(ReadTree(bits, pos).value.tree)
    ensures bits[pos..ReadTree(bits, pos).value.pos] == Encode(ReadTree(bits, pos).value.tree)
  {
    var p := ReadTree(bits, pos).value;
    ReadTreeIsEncodedAt(bits, pos);
    EncodedAtIsEncode(p.tree, bits, pos);
  }

  /** Headers are prefix-free: the encoding of u begins the encoding of t only when u is t. */
  lemma EncodePrefixFree(t: Tree, u: Tree)
    requires Writable(t) && Writable(u) && Size(u) <= Size(t)
    requires Encode(t)[..Size(u)] == Encode(u)
    ensures u == t
  {
    var full := Encode(t);
    assert full[0..Size(t)] == full;
    assert full[0..Size(u)] == full[..Size(u)];
    ReadTreeEncode(t, full, 0);
    ReadTreeEncode(u, full, 0);
  }

  /**
   * A header cut short is never read back as the tree it was cut from:
   * readTree fails, or returns a tree with a leaf whose 9-bit read came
   * back -1.
   */
  lemma ReadTreeTruncated(t: Tree, bits: seq<bool>, pos: nat)
    requires Writable(t)
    requires pos <= |bits| < pos + Size(t)
    requires bits[pos..] == Encode(t)[..|bits| - pos]
    ensures ReadTree(bits, pos).Fail? || !Writable(ReadTree(bits, pos).value.tree)
  {
    var r := ReadTree(bits, pos);
    if r.Ok? && Writable(r.value.tree) {
      var got := r.value;
      var n := Size(got.tree);
      ReadTreeConsumesEncoding(bits, pos);
      assert Encode(t)[..n] == Encode(got.tree) by {
        assert bits[pos..got.pos] == bits[pos..][..n];
      }
      EncodePrefixFree(t, got.tree);
    }
  }
}

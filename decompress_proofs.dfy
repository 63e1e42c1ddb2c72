/**
 * Properties of decompress as a whole: the magic number check, the tree
 * header and the payload, one after the other.
 */
module DecompressProofs {
  import opened Bits
  import opened BitStreams
  import opened HuffProcessor
  import opened HeaderProofs
  import opened PayloadProofs

  /** The magic number fits the 32 bits it is read from. */
  lemma MagicFits()
    ensures HuffTree < Pow2(BitsPerInt)
  {
    assert Pow2(8) == 256;
    Pow2Add(8, 8);
    Pow2Add(16, 16);
  }

  /** The 32-bit rendering of the magic number a compressed stream starts with. */
  function MagicBits(): (m: seq<bool>)
    ensures |m| == BitsPerInt && Value(m) == HuffTree
  {
    MagicFits();
    ToBits(HuffTree, BitsPerInt)
  }

  /**
   * decompress rejects a stream exactly when its next 32 bits are missing or
   * are not the magic number; it then has read only those bits (or drained
   * the stream) and written nothing.
   */
  lemma MagicRejected(bits: seq<bool>, pos: nat)
    requires pos <= |bits|
    ensures var r := Decompression(bits, pos);
      (r.outcome.Thrown? && r.outcome.error.InvalidMagic?)
      <==> !(pos + BitsPerInt <= |bits| && bits[pos..pos + BitsPerInt] == MagicBits())
    ensures var r := Decompression(bits, pos);
      r.outcome.Thrown? && r.outcome.error.InvalidMagic? ==>
        r.emitted == [] && r.pos == Read(bits, pos, BitsPerInt).pos
  {
    var magic := Read(bits, pos, BitsPerInt);
    if pos + BitsPerInt <= |bits| {
      ValueInjective(bits[pos..pos + BitsPerInt], MagicBits());
    }
    if magic.value == HuffTree {
      var header := ReadTree(bits, magic.pos);
      if header.Ok? {
        WalkErrors(header.value.tree, header.value.tree, bits, header.value.pos);
      }
    }
  }

  /**
   * With the magic number in place, a header readTree cannot parse is
   * reported as an invalid input stream, with nothing written and the
   * input drained; no other path raises that error.
   */
  lemma HeaderRejected(bits: seq<bool>, pos: nat)
    requires pos + BitsPerInt <= |bits| && bits[pos..pos + BitsPerInt] == MagicBits()
    ensures var r := Decompression(bits, pos);
      r.outcome == Thrown(InvalidInputStream) <==> ReadTree(bits, pos + BitsPerInt).Fail?
    ensures var r := Decompression(bits, pos);
      ReadTree(bits, pos + BitsPerInt).Fail? ==> r.emitted == [] && r.pos == |bits|
  {
    ValueInjective(bits[pos..pos + BitsPerInt], MagicBits());
    var header := ReadTree(bits, pos + BitsPerInt);
    if header.Ok? {
      WalkErrors(header.value.tree, header.value.tree, bits, header.value.pos);
    }
  }

  /**
   * Whole-stream round trip: the magic number, the header of an
   * internal-node tree and the payload of s decompress to exactly s,
   * stopping right after the code of PseudoEof whatever follows.
   */
  lemma DecompressRoundTrip(t: Tree, s: seq<int>, suffix: seq<bool>)
    requires t.Node? && Writable(t) && PseudoEof in LeafValues(t) && Encodable(t, s)
    ensures Decompression(MagicBits() + Encode(t) + Payload(t, s) + suffix, 0)
         == Run(Done, s, BitsPerInt + Size(t) + PayloadSize(t, s))
  {
    var m, h, p := MagicBits(), Encode(t), Payload(t, s);
    var bits := m + h + p + suffix;
    var mid := BitsPerInt + Size(t);
    ConcatSlices(m, h, p, suffix);
    assert bits[0..BitsPerInt] == m && bits[BitsPerInt..mid] == h && bits[mid..mid + PayloadSize(t, s)] == p;
    assert Read(bits, 0, BitsPerInt).value == HuffTree;
    ReadTreeEncode(t, bits, BitsPerInt);
    WalkPayloadOf(t, s, bits, mid);
  }

  /**
   * Whole-stream soundness: a stream that decompresses to Done starts with
   * the magic number and the header of an internal-node tree whose leaves
   * all hold 9-bit values; when that tree has distinct leaf values, the
   * bits up to where decompress stopped are the payload of what it wrote.
   */
  lemma DecompressSound(bits: seq<bool>, pos: nat)
    requires pos <= |bits| && Decompression(bits, pos).outcome == Done
    ensures pos + BitsPerInt <= |bits| && bits[pos..pos + BitsPerInt] == MagicBits()
    ensures ReadTree(bits, pos + BitsPerInt).Ok?
    ensures var header := ReadTree(bits, pos + BitsPerInt).value;
      header.tree.Node? && Writable(header.tree) && bits[pos + BitsPerInt..header.pos] == Encode(header.tree)
    ensures var header := ReadTree(bits, pos + BitsPerInt).value;
      var r := Decompression(bits, pos);
      DistinctLeaves(header.tree) ==>
        PseudoEof in LeafValues(header.tree) && Encodable(header.tree, r.emitted) &&
        bits[header.pos..r.pos] == Payload(header.tree, r.emitted)
  {
    MagicRejected(bits, pos);
    var header := ReadTree(bits, pos + BitsPerInt).value;
    ReadTreeConsumesEncoding(bits, pos + BitsPerInt);
    if DistinctLeaves(header.tree) {
      WalkDoneDecodes(header.tree, bits, header.pos);
    }
  }
}

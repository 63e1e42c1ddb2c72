/**
 * The Huffman processor: the frequency counter, the stub compressor, the
 * pre-order tree-header reader and the decompressor's tree-walking state
 * machine.
 */
module HuffProcessor {
  import opened Bits
  import opened BitStreams

  const BitsPerWord: nat := 8
  const BitsPerInt: nat := 32
  /** 1 << BitsPerWord: the number of byte values. */
  const AlphSize: nat := 256
  /** The end-of-data symbol, one past the last byte value. */
  const PseudoEof: nat := AlphSize
  const HuffNumber: nat := 0xFACE_8200
  /** The magic number of a tree-headed stream: HuffNumber | 1, that is HuffNumber + 1 as HuffNumber is even. */
  const HuffTree: nat := HuffNumber + 1

  /** A decoding tree; every internal node has exactly two children. */
  datatype Tree = Leaf(value: int) | Node(left: Tree, right: Tree)

  /**
   * Why (de)compression stops early. The first three are the processor's
   * HuffException messages; NullDereference is the null-pointer failure of
   * following a child of a leaf.
   */
  datatype Error = InvalidMagic(magic: int) | InvalidInputStream | NoPseudoEof | NullDereference

  datatype Outcome = Done | Thrown(error: Error)

  datatype Result<T> = Ok(value: T) | Fail(error: Error)

  /** True when every leaf of t holds a value in [lo, hi). */
  predicate LeavesIn(t: Tree, lo: int, hi: int)
  {
    match t
    case Leaf(v) => lo <= v < hi
    case Node(l, r) => LeavesIn(l, lo, hi) && LeavesIn(r, lo, hi)
  }

  // ---------------------------------------------------------------------
  // Frequency counting

  /** A value an 8-bit read can yield. */
  type Word = v: int | 0 <= v < AlphSize

  /** The 8-bit values read from pos until a read comes back -1. */
  function Words(bits: seq<bool>, pos: nat): (w: seq<Word>)
    requires pos <= |bits|
    ensures |w| == (|bits| - pos) / BitsPerWord
    decreases |bits| - pos
  {
    var r := Read(bits, pos, BitsPerWord);
    if r.value == -1 then [] else [r.value] + Words(bits, r.pos)
  }

  /** The i-th value of Words(bits, pos) is the i-th whole byte of the input after pos. */
  lemma {:induction false} WordsAt(bits: seq<bool>, pos: nat, i: nat)
    requires pos <= |bits| && i < (|bits| - pos) / BitsPerWord
    ensures pos + BitsPerWord * (i + 1) <= |bits|
    ensures Words(bits, pos)[i] == Value(bits[pos + BitsPerWord * i..pos + BitsPerWord * (i + 1)])
    decreases i
  {
    assert pos + BitsPerWord <= |bits|;
    if i > 0 {
      WordsAt(bits, pos + BitsPerWord, i - 1);
    }
  }

  /** n zero counts. */
  function Zeros(n: nat): (z: seq<int>)
    ensures |z| == n && forall i :: 0 <= i < n ==> z[i] == 0
  {
    seq(n, _ => 0)
  }

  /** The count table before any value is read: PseudoEof once, every byte value never. */
  function InitialCounts(): (t: seq<int>)
    ensures |t| == AlphSize + 1
  {
    Zeros(AlphSize) + [1]
  }

  /** The table t after adding one to the slot of each of ws, front to back. */
  function AddAll(t: seq<int>, ws: seq<Word>): (r: seq<int>)
    requires |t| == AlphSize + 1
    ensures |r| == AlphSize + 1
    decreases ws
  {
    if ws == [] then t else AddAll(t[ws[0] := t[ws[0]] + 1], ws[1..])
  }

  /** The table readForCounts builds from the values it reads. */
  function Counts(words: seq<Word>): (t: seq<int>)
    ensures |t| == AlphSize + 1
  {
    AddAll(InitialCounts(), words)
  }

  /** The total of the counts in s. */
  function Sum(s: seq<int>): (total: int)
  {
    if s == [] then 0 else s[0] + Sum(s[1..])
  }

  /**
   * readForCounts: tallies the 8-bit values of the rest of the input into
   * a table of AlphSize + 1 counts whose PseudoEof slot is preset to 1,
   * reading until the input runs out.
   */
  method ReadForCounts(inp: BitInputStream) returns (counts: array<int>)
    requires inp.Valid()
    modifies inp
    ensures fresh(counts)
    ensures inp.Valid() && inp.pos == |inp.bits|
    ensures counts[..] == Counts(Words(inp.bits, old(inp.pos)))
  {
    ghost var start := inp.pos;
    counts := new int[AlphSize + 1](_ => 0);
    counts[PseudoEof] := 1;
    assert counts[..] == InitialCounts();
    while true
      invariant inp.Valid() && counts.Length == AlphSize + 1
      invariant AddAll(counts[..], Words(inp.bits, inp.pos)) == Counts(Words(inp.bits, start))
      decreases |inp.bits| - inp.pos
    {
      ghost var before := inp.pos;
      var val := inp.ReadBits(BitsPerWord);
      if val == -1 {
        break;
      }
      ghost var table := counts[..];
      counts[val] := counts[val] + 1;
      CountStep(table, counts[..], inp.bits, before);
    }
    assert Words(inp.bits, inp.pos) == [];
    assert AddAll(counts[..], []) == counts[..];
  }

  /**
   * The table counted from a stream: one slot per byte value holding its
   * number of occurrences, PseudoEof counted once, and a total of one more
   * than the number of whole bytes.
   */
  lemma StreamCounts(bits: seq<bool>, start: nat)
    requires start <= |bits|
    ensures var words := Words(bits, start);
      (forall v: Word :: Counts(words)[v] == multiset(words)[v]) &&
      Counts(words)[PseudoEof] == 1 &&
      Sum(Counts(words)) == (|bits| - start) / BitsPerWord + 1
  {
    var words := Words(bits, start);
    CountsAreOccurrences(words);
    CountsSum(words);
  }

  lemma InitialCountsAt()
    ensures forall i :: 0 <= i < AlphSize ==> InitialCounts()[i] == 0
    ensures InitialCounts()[PseudoEof] == 1
  {
  }

  /** Counting the 8-bit value read at pos: t' is t with that value's slot one higher. */
  lemma CountStep(t: seq<int>, t': seq<int>, bits: seq<bool>, pos: nat)
    requires |t| == |t'| == AlphSize + 1 && pos + BitsPerWord <= |bits|
    requires var v := Read(bits, pos, BitsPerWord).value;
      forall i :: 0 <= i < |t| ==> t'[i] == if i == v then t[i] + 1 else t[i]
    ensures AddAll(t, Words(bits, pos)) == AddAll(t', Words(bits, pos + BitsPerWord))
  {
    var v := Read(bits, pos, BitsPerWord).value;
    var w := Words(bits, pos);
    assert w == [v] + Words(bits, pos + BitsPerWord);
    assert w[1..] == Words(bits, pos + BitsPerWord);
    assert t' == t[v := t[v] + 1];
  }

  /** Each byte slot of AddAll(t, ws) grows by the occurrences of its value in ws; the PseudoEof slot stays. */
  lemma {:induction false} AddAllSlot(t: seq<int>, ws: seq<Word>, v: Word)
    requires |t| == AlphSize + 1
    ensures AddAll(t, ws)[v] == t[v] + multiset(ws)[v]
    ensures AddAll(t, ws)[PseudoEof] == t[PseudoEof]
    decreases ws
  {
    if ws != [] {
      AddAllSlot(t[ws[0] := t[ws[0]] + 1], ws[1..], v);
      assert ws == [ws[0]] + ws[1..];
      assert multiset(ws) == multiset{ws[0]} + multiset(ws[1..]);
    }
  }

  /** Slot v of the table counts the occurrences of byte value v; the PseudoEof slot holds 1. */
  lemma CountsAreOccurrences(words: seq<Word>)
    ensures forall v: Word :: Counts(words)[v] == multiset(words)[v]
    ensures Counts(words)[PseudoEof] == 1
  {
    InitialCountsAt();
    forall v: Word
      ensures Counts(words)[v] == multiset(words)[v]
    {
      AddAllSlot(InitialCounts(), words, v);
    }
    AddAllSlot(InitialCounts(), words, 0);
  }

  /** Adding one to a slot adds one to the total. */
  lemma {:induction false} SumIncrement(s: seq<int>, i: nat)
    requires i < |s|
    ensures Sum(s[i := s[i] + 1]) == Sum(s) + 1
  {
    if i > 0 {
      assert s[i := s[i] + 1][1..] == s[1..][i - 1 := s[i] + 1];
      SumIncrement(s[1..], i - 1);
    } else {
      assert s[i := s[i] + 1][1..] == s[1..];
    }
  }

  /** Every value added to the table adds one to its total. */
  lemma {:induction false} AddAllSum(t: seq<int>, ws: seq<Word>)
    requires |t| == AlphSize + 1
    ensures Sum(AddAll(t, ws)) == Sum(t) + |ws|
    decreases ws
  {
    if ws != [] {
      SumIncrement(t, ws[0]);
      AddAllSum(t[ws[0] := t[ws[0]] + 1], ws[1..]);
    }
  }

  /** The initial table sums to 1. */
  lemma {:induction false} SumZerosThenOne(n: nat)
    ensures Sum(Zeros(n) + [1]) == 1
  {
    if n > 0 {
      assert (Zeros(n) + [1])[1..] == Zeros(n - 1) + [1];
      SumZerosThenOne(n - 1);
    }
  }

  /** The table counts every value read once, plus the one PseudoEof. */
  lemma CountsSum(words: seq<Word>)
    ensures Sum(Counts(words)) == |words| + 1
  {
    SumZerosThenOne(AlphSize);
    AddAllSum(InitialCounts(), words);
  }

  // ---------------------------------------------------------------------
  // Compression (the stub of this revision)

  /** The writes copying the given 8-bit values, in order. */
  function WordWrites(vals: seq<int>): (w: seq<Write>)
    ensures |w| == |vals|
  {
    if vals == [] then [] else [Write(BitsPerWord, vals[0])] + WordWrites(vals[1..])
  }

  /** Writing a + b is writing a, then b. */
  lemma {:induction false} WordWritesAppend(a: seq<int>, b: seq<int>)
    ensures WordWrites(a + b) == WordWrites(a) + WordWrites(b)
  {
    if a != [] {
      assert (a + b)[1..] == a[1..] + b;
      WordWritesAppend(a[1..], b);
    } else {
      assert a + b == b;
    }
  }

  /**
   * The copy loop of compress: writes every 8-bit value that remains in
   * the input, in order, and leaves the input exhausted.
   */
  method CopyWords(inp: BitInputStream, out: BitOutputStream)
    requires inp.Valid()
    modifies inp, out
    ensures inp.Valid() && inp.pos == |inp.bits|
    ensures out.writes == old(out.writes) + WordWrites(Words(inp.bits, old(inp.pos)))
  {
    ghost var start := inp.pos;
    while true
      invariant inp.Valid()
      invariant out.writes + WordWrites(Words(inp.bits, inp.pos)) == old(out.writes) + WordWrites(Words(inp.bits, start))
      decreases |inp.bits| - inp.pos
    {
      ghost var before := inp.pos;
      var val := inp.ReadBits(BitsPerWord);
      if val == -1 {
        break;
      }
      CopyStep(out.writes, inp.bits, before);
      out.WriteBits(BitsPerWord, val);
    }
    assert Words(inp.bits, inp.pos) == [];
    assert out.writes + [] == out.writes;
  }

  /** Copying the 8-bit value read at pos after the writes w. */
  lemma CopyStep(w: seq<Write>, bits: seq<bool>, pos: nat)
    requires pos + BitsPerWord <= |bits|
    ensures var v := Read(bits, pos, BitsPerWord).value;
      w + WordWrites(Words(bits, pos)) == (w + [Write(BitsPerWord, v)]) + WordWrites(Words(bits, pos + BitsPerWord))
  {
    var v := Read(bits, pos, BitsPerWord).value;
    var ws := Words(bits, pos);
    assert ws == [v] + Words(bits, pos + BitsPerWord);
    assert ws[1..] == Words(bits, pos + BitsPerWord);
  }

  /**
   * compress: counts the input, then copies the 8-bit values that remain.
   * Counting leaves the input exhausted and nothing rewinds it, so nothing
   * is copied.
   */
  method Compress(inp: BitInputStream, out: BitOutputStream)
    requires inp.Valid()
    modifies inp, out
    ensures inp.Valid() && inp.pos == |inp.bits|
    ensures out.writes == old(out.writes)
  {
    var counts := ReadForCounts(inp);
    CopyWords(inp, out);
  }

  // ---------------------------------------------------------------------
  // Tree header

  /** A tree read from the header and the position just after it. */
  datatype Parsed = Parsed(tree: Tree, pos: nat)

  /**
   * readTree: a tag bit 0 is an internal node whose left then right subtree
   * follow; a tag bit 1 is a leaf whose value is the next 9-bit field (read
   * without checking for -1). A missing tag bit is an InvalidInputStream.
   * The 1-bit tag read is written as a test of the next bit (ReadBit shows
   * the two agree).
   */
  function ReadTree(bits: seq<bool>, pos: nat): (r: Result<Parsed>)
    requires pos <= |bits|
    ensures r.Fail? ==> r.error == InvalidInputStream
    ensures r.Ok? ==> pos < r.value.pos <= |bits|
    ensures r.Ok? ==> LeavesIn(r.value.tree, -1, Pow2(BitsPerWord + 1))
    ensures r.Ok? && r.value.pos < |bits| ==> LeavesIn(r.value.tree, 0, Pow2(BitsPerWord + 1))
    decreases |bits| - pos
  {
    if pos == |bits| then Fail(InvalidInputStream)
    else if !bits[pos] then
      match ReadTree(bits, pos + 1)
      case Fail(e) => Fail(e)
      case Ok(left) =>
        match ReadTree(bits, left.pos)
        case Fail(e) => Fail(e)
        case Ok(right) => Ok(Parsed(Node(left.tree, right.tree), right.pos))
    else
      var value := Read(bits, pos + 1, BitsPerWord + 1);
      Ok(Parsed(Leaf(value.value), value.pos))
  }

  // ---------------------------------------------------------------------
  // Decompression

  /** Where a run of the decompressor ends: its outcome, the values it wrote, the input position. */
  datatype Run = Run(outcome: Outcome, emitted: seq<int>, pos: nat)

  /**
   * The payload loop from node cur: each bit moves to the left (0) or right
   * (1) child; a leaf other than PseudoEof is written and the walk restarts
   * at root; the PseudoEof leaf ends the run; running out of bits first is
   * a NoPseudoEof failure.
   */
  function Walk(root: Tree, cur: Tree, bits: seq<bool>, pos: nat): (r: Run)
    requires pos <= |bits|
    ensures pos <= r.pos <= |bits|
    decreases |bits| - pos
  {
    if pos == |bits| then Run(Thrown(NoPseudoEof), [], |bits|)
    else if cur.Leaf? then Run(Thrown(NullDereference), [], pos + 1)
    else
      var next := if bits[pos] then cur.right else cur.left;
      if next.Leaf? then
        if next.value == PseudoEof then Run(Done, [], pos + 1)
        else After([next.value], Walk(root, root, bits, pos + 1))
      else Walk(root, next, bits, pos + 1)
  }

  /** The run r preceded by the writes of vals. */
  function After(vals: seq<int>, r: Run): (after: Run)
  {
    Run(r.outcome, vals + r.emitted, r.pos)
  }

  lemma AfterAfter(vals: seq<int>, v: int, r: Run)
    ensures After(vals, After([v], r)) == After(vals + [v], r)
    ensures WordWrites(vals + [v]) == WordWrites(vals) + [Write(BitsPerWord, v)]
  {
    assert vals + ([v] + r.emitted) == (vals + [v]) + r.emitted;
    WordWritesAppend(vals, [v]);
  }

  /** decompress from pos: magic number, then tree header, then payload. */
  function Decompression(bits: seq<bool>, pos: nat): (r: Run)
    requires pos <= |bits|
    ensures pos <= r.pos <= |bits|
  {
    var magic := Read(bits, pos, BitsPerInt);
    if magic.value != HuffTree then Run(Thrown(InvalidMagic(magic.value)), [], magic.pos)
    else
      match ReadTree(bits, magic.pos)
      case Fail(e) => Run(Thrown(e), [], |bits|)
      case Ok(header) => Walk(header.tree, header.tree, bits, header.pos)
  }

  /**
   * decompress: checks the magic number, reads the tree header and walks
   * the tree through the payload, writing each decoded value as an 8-bit
   * field, until the PseudoEof leaf.
   */
  method Decompress(inp: BitInputStream, out: BitOutputStream) returns (outcome: Outcome)
    requires inp.Valid()
    modifies inp, out
    ensures inp.Valid()
    ensures var run := Decompression(inp.bits, old(inp.pos));
      outcome == run.outcome && inp.pos == run.pos && out.writes == old(out.writes) + WordWrites(run.emitted)
  {
    ghost var start := inp.pos;
    var magic := inp.ReadBits(BitsPerInt);
    if magic != HuffTree {
      return Thrown(InvalidMagic(magic));
    }
    var root: Tree;
    match ReadTree(inp.bits, inp.pos)
    case Fail(e) =>
      inp.pos := |inp.bits|;
      return Thrown(e);
    case Ok(header) =>
      inp.pos := header.pos;
      root := header.tree;
    outcome := WalkPayload(inp, out, root);
  }

  /**
   * The payload loop of decompress: starting at the root, each bit moves
   * the current node to a child; a leaf is written (or, for PseudoEof, ends
   * the loop) and the current node goes back to the root.
   */
  method WalkPayload(inp: BitInputStream, out: BitOutputStream, root: Tree) returns (outcome: Outcome)
    requires inp.Valid()
    modifies inp, out
    ensures inp.Valid()
    ensures var run := Walk(root, root, inp.bits, old(inp.pos));
      outcome == run.outcome && inp.pos == run.pos && out.writes == old(out.writes) + WordWrites(run.emitted)
  {
    ghost var start := inp.pos;
    var current := root;
    ghost var emitted: seq<int> := [];
    while true
      invariant inp.Valid()
      invariant Walk(root, root, inp.bits, start) == After(emitted, Walk(root, current, inp.bits, inp.pos))
      invariant out.writes == old(out.writes) + WordWrites(emitted)
      decreases |inp.bits| - inp.pos
    {
      ghost var before := inp.pos;
      var val := inp.ReadBits(1);
      ReadBit(inp.bits, before);
      assert emitted + [] == emitted;
      if val == -1 {
        return Thrown(NoPseudoEof);
      }
      if current.Leaf? {
        return Thrown(NullDereference);
      }
      current := if val == 0 then current.left else current.right;
      if current.Leaf? {
        if current.value == PseudoEof {
          break;
        }
        AfterAfter(emitted, current.value, Walk(root, root, inp.bits, inp.pos));
        out.WriteBits(BitsPerWord, current.value);
        emitted := emitted + [current.value];
        current := root;
      }
    }
    outcome := Done;
  }
}

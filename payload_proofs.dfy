/**
 * Properties of the payload walk of decompress. The code of a value is
 * the path (false for left, true for right) from the root to its leaf;
 * Payload is the bit string a compressor would write for a sequence of
 * values followed by PseudoEof. Both are proof aids: this revision of the
 * processor builds no code table.
 */
module PayloadProofs {
  import opened Bits
  import opened HuffProcessor

  datatype Option<T> = None | Some(value: T)

  /** The values held by the leaves of t. */
  function LeafValues(t: Tree): (vs: set<int>)
  {
    match t
    case Leaf(v) => {v}
    case Node(l, r) => LeafValues(l) + LeafValues(r)
  }

  /** The subtree reached from t along path (false = left, true = right); None when the path runs past a leaf. */
  function Follow(t: Tree, path: seq<bool>): (sub: Option<Tree>)
    decreases path
  {
    if path == [] then Some(t)
    else match t
      case Leaf(_) => None
      case Node(l, r) => Follow(if path[0] then r else l, path[1..])
  }

  /** The path to the leftmost leaf of t holding v, if there is one. */
  function Code(t: Tree, v: int): (c: Option<seq<bool>>)
    ensures c.Some? <==> v in LeafValues(t)
    ensures c.Some? ==> Follow(t, c.value) == Some(Leaf(v))
  {
    match t
    case Leaf(x) => if x == v then Some([]) else None
    case Node(l, r) =>
      match Code(l, v)
      case Some(p) =>
        assert ([false] + p)[1..] == p;
        Some([false] + p)
      case None =>
        match Code(r, v)
        case Some(p) =>
          assert ([true] + p)[1..] == p;
          Some([true] + p)
        case None => None
  }

  /** Every value of s has a leaf in t, and none is PseudoEof. */
  predicate Encodable(t: Tree, s: seq<int>)
  {
    forall i :: 0 <= i < |s| ==> s[i] != PseudoEof && s[i] in LeafValues(t)
  }

  /** The codes of the values of s, then the code of PseudoEof. */
  function Payload(t: Tree, s: seq<int>): (p: seq<bool>)
    requires PseudoEof in LeafValues(t) && Encodable(t, s)
    ensures |p| == PayloadSize(t, s)
  {
    if s == [] then Code(t, PseudoEof).value
    else Code(t, s[0]).value + Payload(t, s[1..])
  }

  /**
   * Walking from an internal node along a path to a leaf v: a v other than
   * PseudoEof is written and the walk restarts at the root right after the
   * path; PseudoEof ends the run there.
   */
  lemma {:induction false} WalkPath(root: Tree, cur: Tree, path: seq<bool>, v: int, bits: seq<bool>, pos: nat)
    requires cur.Node? && Follow(cur, path) == Some(Leaf(v))
    requires pos + |path| <= |bits| && bits[pos..pos + |path|] == path
    ensures Walk(root, cur, bits, pos)
         == if v == PseudoEof then Run(Done, [], pos + |path|) else After([v], Walk(root, root, bits, pos + |path|))
    decreases path
  {
    assert path != [];
    assert bits[pos] == path[0] by {
      assert bits[pos..pos + |path|][0] == bits[pos];
    }
    var next := if path[0] then cur.right else cur.left;
    if next.Node? {
      assert bits[pos + 1..pos + 1 + |path[1..]|] == path[1..];
      WalkPath(root, next, path[1..], v, bits, pos + 1);
    }
  }

  /** The length of Payload(t, s), counted code by code. */
  function PayloadSize(t: Tree, s: seq<int>): (n: nat)
    requires PseudoEof in LeafValues(t) && Encodable(t, s)
  {
    if s == [] then |Code(t, PseudoEof).value|
    else |Code(t, s[0]).value| + PayloadSize(t, s[1..])
  }

  /**
   * Payload round trip: from the root of an internal-node tree, the payload
   * of s decodes to s and the walk stops right after the code of PseudoEof,
   * whatever follows.
   */
  lemma {:induction false} WalkPayloadOf(t: Tree, s: seq<int>, bits: seq<bool>, pos: nat)
    requires t.Node? && PseudoEof in LeafValues(t) && Encodable(t, s)
    requires pos + PayloadSize(t, s) <= |bits| && bits[pos..pos + PayloadSize(t, s)] == Payload(t, s)
    ensures Walk(t, t, bits, pos) == Run(Done, s, pos + PayloadSize(t, s))
    decreases s
  {
    if s == [] {
      WalkPath(t, t, Code(t, PseudoEof).value, PseudoEof, bits, pos);
    } else {
      var c := Code(t, s[0]).value;
      var rest := Payload(t, s[1..]);
      SliceConcat(bits, pos, c, rest);
      WalkPath(t, t, c, s[0], bits, pos);
      WalkPayloadOf(t, s[1..], bits, pos + |c|);
      assert [s[0]] + s[1..] == s;
    }
  }

  /** A proper prefix of a path to a leaf ends at an internal node. */
  lemma {:induction false} FollowPrefix(cur: Tree, path: seq<bool>, v: int, k: nat)
    requires Follow(cur, path) == Some(Leaf(v)) && k < |path|
    ensures Follow(cur, path[..k]).Some? && Follow(cur, path[..k]).value.Node?
    decreases path
  {
    if k > 0 {
      var next := if path[0] then cur.right else cur.left;
      assert path[..k][1..] == path[1..][..k - 1];
      FollowPrefix(next, path[1..], v, k - 1);
    }
  }

  /**
   * Bits that run out in the middle of a path to an internal node end the
   * walk with the missing pseudo-EOF error and no output.
   */
  lemma {:induction false} WalkPartialPath(root: Tree, cur: Tree, path: seq<bool>, bits: seq<bool>, pos: nat)
    requires Follow(cur, path).Some? && Follow(cur, path).value.Node?
    requires pos + |path| == |bits| && bits[pos..] == path
    ensures Walk(root, cur, bits, pos) == Run(Thrown(NoPseudoEof), [], |bits|)
    decreases path
  {
    if path != [] {
      assert bits[pos] == path[0] by {
        assert bits[pos..][0] == bits[pos];
      }
      var next := if path[0] then cur.right else cur.left;
      assert bits[pos + 1..] == path[1..];
      WalkPartialPath(root, next, path[1..], bits, pos + 1);
    }
  }

  /**
   * A payload cut short never completes: the walk reports the missing
   * pseudo-EOF at the end of the bits, having written a prefix of s.
   */
  lemma {:induction false} WalkTruncatedPayload(t: Tree, s: seq<int>, bits: seq<bool>, pos: nat)
    requires t.Node? && PseudoEof in LeafValues(t) && Encodable(t, s)
    requires pos <= |bits| < pos + PayloadSize(t, s)
    requires bits[pos..] == Payload(t, s)[..|bits| - pos]
    ensures var r := Walk(t, t, bits, pos);
      r.outcome == Thrown(NoPseudoEof) && r.pos == |bits| && |r.emitted| <= |s| && r.emitted == s[..|r.emitted|]
    decreases s
  {
    var n := |bits| - pos;
    var c := if s == [] then Code(t, PseudoEof).value else Code(t, s[0]).value;
    var v := if s == [] then PseudoEof else s[0];
    if n < |c| {
      assert Payload(t, s)[..n] == c[..n];
      FollowPrefix(t, c, v, n);
      WalkPartialPath(t, t, c[..n], bits, pos);
    } else {
      var rest := Payload(t, s[1..]);
      assert Payload(t, s) == c + rest;
      assert bits[pos..pos + |c|] == c by {
        assert bits[pos..pos + |c|] == bits[pos..][..|c|];
      }
      assert bits[pos + |c|..] == rest[..n - |c|] by {
        assert bits[pos + |c|..] == bits[pos..][|c|..];
      }
      WalkPath(t, t, c, v, bits, pos);
      WalkTruncatedPayload(t, s[1..], bits, pos + |c|);
      var r' := Walk(t, t, bits, pos + |c|);
      assert s[..1 + |r'.emitted|] == [s[0]] + s[1..][..|r'.emitted|];
    }
  }

  /** No value is held by leaves on both sides of any node. */
  predicate DistinctLeaves(t: Tree)
  {
    match t
    case Leaf(_) => true
    case Node(l, r) => LeafValues(l) !! LeafValues(r) && DistinctLeaves(l) && DistinctLeaves(r)
  }

  /** The leaf at the end of a path belongs to the tree. */
  lemma {:induction false} FollowLeafValue(t: Tree, path: seq<bool>, v: int)
    requires Follow(t, path) == Some(Leaf(v))
    ensures v in LeafValues(t)
    decreases path
  {
    if path != [] {
      FollowLeafValue(if path[0] then t.right else t.left, path[1..], v);
    }
  }

  /** When leaf values are distinct, the code of a value is the only path to it. */
  lemma {:induction false} FollowCode(t: Tree, path: seq<bool>, v: int)
    requires DistinctLeaves(t) && Follow(t, path) == Some(Leaf(v))
    ensures Code(t, v) == Some(path)
    decreases path
  {
    if path != [] {
      var next := if path[0] then t.right else t.left;
      FollowLeafValue(next, path[1..], v);
      FollowCode(next, path[1..], v);
      assert [path[0]] + path[1..] == path;
    }
  }

  /**
   * A walk from an internal node that ends with Done has met a leaf: it
   * followed some path spelled by the next bits to a leaf v.
   */
  lemma {:induction false} WalkFirstLeaf(root: Tree, cur: Tree, bits: seq<bool>, pos: nat) returns (path: seq<bool>, v: int)
    requires root.Node? && cur.Node? && pos <= |bits|
    requires Walk(root, cur, bits, pos).outcome == Done
    ensures pos + |path| <= |bits| && bits[pos..pos + |path|] == path
    ensures Follow(cur, path) == Some(Leaf(v))
    decreases |bits| - pos
  {
    var next := if bits[pos] then cur.right else cur.left;
    if next.Leaf? {
      path, v := [bits[pos]], next.value;
      assert path[1..] == [];
    } else {
      var rest;
      rest, v := WalkFirstLeaf(root, next, bits, pos + 1);
      path := [bits[pos]] + rest;
      assert path[1..] == rest;
      assert bits[pos..pos + |path|] == [bits[pos]] + bits[pos + 1..pos + 1 + |rest|];
    }
  }

  /**
   * Soundness of the walk: when it succeeds, the bits it consumed are
   * exactly the payload of what it wrote.
   */
  lemma {:induction false} WalkDoneDecodes(root: Tree, bits: seq<bool>, pos: nat)
    requires root.Node? && DistinctLeaves(root) && pos <= |bits|
    requires Walk(root, root, bits, pos).outcome == Done
    ensures var r := Walk(root, root, bits, pos);
      PseudoEof in LeafValues(root) && Encodable(root, r.emitted) && bits[pos..r.pos] == Payload(root, r.emitted)
    decreases |bits| - pos
  {
    var path, v := WalkFirstLeaf(root, root, bits, pos);
    WalkPath(root, root, path, v, bits, pos);
    FollowCode(root, path, v);
    var mid := pos + |path|;
    if v != PseudoEof {
      WalkDoneDecodes(root, bits, mid);
      var r' := Walk(root, root, bits, mid);
      var e := [v] + r'.emitted;
      assert e[1..] == r'.emitted;
      assert Encodable(root, e) by {
        forall i | 0 <= i < |e| ensures e[i] != PseudoEof && e[i] in LeafValues(root) {
          if i > 0 {
            assert e[i] == r'.emitted[i - 1];
          }
        }
      }
      SliceSplit(bits, pos, mid, r'.pos);
    }
  }

  /**
   * From an internal node of a tree whose root is internal, the walk ends in
   * one of two ways: Done, or the missing pseudo-EOF at the end of the bits.
   */
  lemma {:induction false} WalkOutcome(root: Tree, cur: Tree, bits: seq<bool>, pos: nat)
    requires root.Node? && cur.Node? && pos <= |bits|
    ensures var r := Walk(root, cur, bits, pos);
      r.outcome == Done || (r.outcome == Thrown(NoPseudoEof) && r.pos == |bits|)
    decreases |bits| - pos
  {
    if pos < |bits| {
      var next := if bits[pos] then cur.right else cur.left;
      if next.Node? {
        WalkOutcome(root, next, bits, pos + 1);
      } else if next.value != PseudoEof {
        WalkOutcome(root, root, bits, pos + 1);
      }
    }
  }

  /** A single-leaf root fails on the first payload bit with a null dereference. */
  lemma WalkLeafRoot(v: int, bits: seq<bool>, pos: nat)
    requires pos < |bits|
    ensures Walk(Leaf(v), Leaf(v), bits, pos) == Run(Thrown(NullDereference), [], pos + 1)
  {
  }

  /** The payload walk raises no error but the missing pseudo-EOF and the null dereference. */
  lemma {:induction false} WalkErrors(root: Tree, cur: Tree, bits: seq<bool>, pos: nat)
    requires pos <= |bits|
    ensures Walk(root, cur, bits, pos).outcome in {Done, Thrown(NoPseudoEof), Thrown(NullDereference)}
    decreases |bits| - pos
  {
    if pos < |bits| && cur.Node? {
      var next := if bits[pos] then cur.right else cur.left;
      if next.Node? {
        WalkErrors(root, next, bits, pos + 1);
      } else if next.value != PseudoEof {
        WalkErrors(root, root, bits, pos + 1);
      }
    }
  }
}

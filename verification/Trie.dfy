/**
 The binary trie that the index section of a database file denotes.

 A node is a pair of little-endian records of `recordLength` bytes, node 0 is
 the root, and a record below `segments` is the number of the next node while
 any other record is the answer.  Addresses are numbers of `w` bits, so that
 the same definitions serve IPv4 (32) and IPv6 (128).
 */
module Trie {
  import opened Bits
  import opened Bytes

  const IPV4_BITS: nat := 32
  const IPV6_BITS: nat := 128

  datatype Index = Index(bytes: seq<Byte>, recordLength: nat, segments: nat) {

    function PairLength(): nat { 2 * recordLength }

    /** The byte offset of node `node`. */
    function At(node: nat): nat { PairLength() * node }

    /** The pair of node `node` lies inside the file. */
    predicate HasNode(node: nat) {
      At(node) + PairLength() <= |bytes|
    }

    /** The record that node `node` holds for a 0 bit (left) or a 1 bit (right). */
    function Child(node: nat, right: bool): nat
      requires HasNode(node)
    {
      var at := At(node) + if right then recordLength else 0;
      LittleEndian(bytes[at..at + recordLength])
    }

    /** The record length and segment bound that every opened file has. */
    ghost predicate Valid() {
      (recordLength == 3 || recordLength == 4) && segments < Pow2(24)
    }
  }

  /** What a lookup tells its caller: a value with its prefix length, or the corrupt-file message. */
  datatype Answer = Found(value: nat, netmask: nat) | Lost {

    /** The C return value. */
    function Value(): nat {
      if Found? then value else 0
    }
  }

  /** Reads the trie from `node` on, with `d` of the `w` address bits still to be used. */
  function Descend(ix: Index, w: nat, num: nat, d: nat, node: nat): Answer
    requires d <= w
  {
    if d == 0 || !ix.HasNode(node) then Lost
    else
      var x := ix.Child(node, Bit(num, d - 1));
      if x >= ix.segments then Found(x, w - d + 1) else Descend(ix, w, num, d - 1, x)
  }

  function Lookup(ix: Index, w: nat, num: nat): Answer {
    Descend(ix, w, num, w, 0)
  }

  // ---------------------------------------------------------------- prefix agreement

  lemma {:induction false} DescendNetmask(ix: Index, w: nat, num: nat, d: nat, node: nat)
    requires d <= w && Descend(ix, w, num, d, node).Found?
    ensures w - d + 1 <= Descend(ix, w, num, d, node).netmask <= w
    ensures Descend(ix, w, num, d, node).value >= ix.segments
  {
    var x := ix.Child(node, Bit(num, d - 1));
    if x < ix.segments {
      DescendNetmask(ix, w, num, d - 1, x);
    }
  }

  lemma {:induction false} DescendPrefix(ix: Index, w: nat, num: nat, other: nat, d: nat, node: nat)
    requires d <= w && Descend(ix, w, num, d, node).Found?
    requires var m := Descend(ix, w, num, d, node).netmask; m <= w && Shr(num, w - m) == Shr(other, w - m)
    ensures Descend(ix, w, other, d, node) == Descend(ix, w, num, d, node)
  {
    var m := Descend(ix, w, num, d, node).netmask;
    DescendNetmask(ix, w, num, d, node);
    ShrShr(num, w - m, d - 1 - (w - m));
    ShrShr(other, w - m, d - 1 - (w - m));
    var x := ix.Child(node, Bit(num, d - 1));
    if x < ix.segments {
      DescendPrefix(ix, w, num, other, d - 1, x);
    }
  }

  /** The addresses that share the top `m` of their `w` bits with `num`. */
  function BlockFirst(w: nat, num: nat, m: nat): nat
    requires m <= w
  {
    Shr(num, w - m) * Pow2(w - m)
  }

  function BlockLast(w: nat, num: nat, m: nat): nat
    requires m <= w
  {
    BlockFirst(w, num, m) + Pow2(w - m) - 1
  }

  /** A successful lookup speaks for the whole netblock: `m` is 1..w, and
      every address with the same top `m` bits gets the same answer. */
  lemma {:induction false} PrefixAgreement(ix: Index, w: nat, num: nat)
    requires Lookup(ix, w, num).Found?
    ensures 1 <= Lookup(ix, w, num).netmask <= w
    ensures Lookup(ix, w, num).value >= ix.segments
    ensures var m := Lookup(ix, w, num).netmask;
            && BlockFirst(w, num, m) <= num <= BlockLast(w, num, m)
            && forall q: nat | BlockFirst(w, num, m) <= q <= BlockLast(w, num, m) ::
                 Lookup(ix, w, q) == Lookup(ix, w, num)
  {
    DescendNetmask(ix, w, num, w, 0);
    var m := Lookup(ix, w, num).netmask;
    var k := w - m;
    var s := Shr(num, k);
    SameBlock(num, k, s);
    forall q: nat | BlockFirst(w, num, m) <= q <= BlockLast(w, num, m)
      ensures Lookup(ix, w, q) == Lookup(ix, w, num)
    {
      SameBlock(q, k, s);
      DescendPrefix(ix, w, num, q, w, 0);
    }
  }

  /** Netblocks are laminar, indeed flat: two of them are equal or disjoint, and equal ones carry one answer. */
  lemma NetblocksEqualOrDisjoint(ix: Index, w: nat, a: nat, b: nat)
    requires Lookup(ix, w, a).Found? && Lookup(ix, w, b).Found?
    ensures Lookup(ix, w, a).netmask <= w && Lookup(ix, w, b).netmask <= w
    ensures var (m, n) := (Lookup(ix, w, a).netmask, Lookup(ix, w, b).netmask);
            || (m == n && BlockFirst(w, a, m) == BlockFirst(w, b, n) && Lookup(ix, w, a) == Lookup(ix, w, b))
            || BlockLast(w, a, m) < BlockFirst(w, b, n)
            || BlockLast(w, b, n) < BlockFirst(w, a, m)
  {
    PrefixAgreement(ix, w, a);
    PrefixAgreement(ix, w, b);
    var (m, n) := (Lookup(ix, w, a).netmask, Lookup(ix, w, b).netmask);
    var q := if BlockFirst(w, a, m) <= BlockFirst(w, b, n) then BlockFirst(w, b, n) else BlockFirst(w, a, m);
    if BlockFirst(w, b, n) <= BlockLast(w, a, m) && BlockFirst(w, a, m) <= BlockLast(w, b, n) {
      assert Lookup(ix, w, q) == Lookup(ix, w, a);
      assert Lookup(ix, w, q) == Lookup(ix, w, b);
      InBlock(w, a, m, q);
      InBlock(w, b, n, q);
    }
  }

  lemma InBlock(w: nat, num: nat, m: nat, q: nat)
    requires m <= w && BlockFirst(w, num, m) <= q <= BlockLast(w, num, m)
    ensures Shr(q, w - m) == Shr(num, w - m)
  {
    var k := w - m;
    var s := Shr(num, k);
    SameBlock(q, k, s);
  }

  /** A value is one record, so it fits the record length. */
  lemma {:induction false} DescendValueBound(ix: Index, w: nat, num: nat, d: nat, node: nat)
    requires d <= w && Descend(ix, w, num, d, node).Found?
    ensures Descend(ix, w, num, d, node).value < Pow2(8 * ix.recordLength)
  {
    var x := ix.Child(node, Bit(num, d - 1));
    if x < ix.segments {
      DescendValueBound(ix, w, num, d - 1, x);
    } else {
      var at := ix.At(node) + if Bit(num, d - 1) then ix.recordLength else 0;
      LittleEndianBound(ix.bytes[at..at + ix.recordLength]);
    }
  }

  // ---------------------------------------------------------------- paths

  /** Node `i` of the path lies inside the file, and it is the root or the one that bit `i - 1` of `num` leads to. */
  ghost predicate PathStep(ix: Index, w: nat, num: nat, nodes: seq<nat>, i: nat)
    requires i < |nodes| <= w
  {
    && ix.HasNode(nodes[i])
    && if i == 0 then nodes[i] == 0
       else ix.HasNode(nodes[i - 1]) && nodes[i] == ix.Child(nodes[i - 1], Bit(num, w - i)) < ix.segments
  }

  /** `nodes` are the nodes that the leading bits of `num` visit, every one inside the file. */
  ghost predicate IsPath(ix: Index, w: nat, num: nat, nodes: seq<nat>) {
    0 < |nodes| <= w && forall i: nat | i < |nodes| :: PathStep(ix, w, num, nodes, i)
  }

  /** After the nodes of a path, the next bit of `num` selects the answer `v`. */
  ghost predicate PathAnswers(ix: Index, w: nat, num: nat, nodes: seq<nat>, v: nat) {
    && IsPath(ix, w, num, nodes)
    && PathStep(ix, w, num, nodes, |nodes| - 1)
    && v == ix.Child(nodes[|nodes| - 1], Bit(num, w - |nodes|)) >= ix.segments
  }

  lemma {:induction false} PathToDescend(ix: Index, w: nat, num: nat, nodes: seq<nat>, i: nat)
    requires IsPath(ix, w, num, nodes) && i < |nodes|
    ensures Lookup(ix, w, num) == Descend(ix, w, num, w - i, nodes[i])
  {
    assert PathStep(ix, w, num, nodes, i);
    if i > 0 {
      PathToDescend(ix, w, num, nodes, i - 1);
    }
  }

  lemma PathExtends(ix: Index, w: nat, num: nat, nodes: seq<nat>, x: nat)
    requires IsPath(ix, w, num, nodes) && 0 < |nodes| < w
    requires ix.HasNode(nodes[|nodes| - 1]) && ix.HasNode(x)
    requires x == ix.Child(nodes[|nodes| - 1], Bit(num, w - |nodes|)) < ix.segments
    ensures IsPath(ix, w, num, nodes + [x])
  {
    var longer := nodes + [x];
    forall i: nat | i < |longer|
      ensures PathStep(ix, w, num, longer, i)
    {
      if i < |nodes| {
        assert PathStep(ix, w, num, nodes, i);
      }
    }
  }

  lemma {:induction false} DescendToPath(ix: Index, w: nat, num: nat, nodes: seq<nat>) returns (full: seq<nat>)
    requires IsPath(ix, w, num, nodes)
    requires 0 < |nodes| <= w
    requires Descend(ix, w, num, w - |nodes| + 1, nodes[|nodes| - 1]).Found?
    ensures var a := Descend(ix, w, num, w - |nodes| + 1, nodes[|nodes| - 1]);
            |full| == a.netmask && PathAnswers(ix, w, num, full, a.value)
    decreases w - |nodes|
  {
    var last := |nodes| - 1;
    assert PathStep(ix, w, num, nodes, last);
    var x := ix.Child(nodes[last], Bit(num, w - |nodes|));
    if x >= ix.segments {
      full := nodes;
    } else {
      PathExtends(ix, w, num, nodes, x);
      assert |nodes + [x]| == |nodes| + 1 && (nodes + [x])[|nodes|] == x;
      full := DescendToPath(ix, w, num, nodes + [x]);
    }
  }

  /** The lookup succeeds with value `v` and netmask `m` exactly when a path of `m` in-bounds nodes leads to `v`.
      Nothing is said about the shape of the node graph: it may be cyclic. */
  lemma LookupFindsExactlyPaths(ix: Index, w: nat, num: nat, v: nat, m: nat)
    ensures Lookup(ix, w, num) == Found(v, m)
       <==> exists nodes :: |nodes| == m && PathAnswers(ix, w, num, nodes, v)
  {
    if Lookup(ix, w, num) == Found(v, m) {
      assert PathStep(ix, w, num, [0], 0);
      var nodes := DescendToPath(ix, w, num, [0]);
    }
    forall nodes | |nodes| == m && PathAnswers(ix, w, num, nodes, v)
      ensures Lookup(ix, w, num) == Found(v, m)
    {
      PathToDescend(ix, w, num, nodes, m - 1);
    }
  }

  /** The lookup fails exactly when no path of at most `w` nodes leads to a value. */
  lemma LookupFailsExactlyWithoutPath(ix: Index, w: nat, num: nat)
    ensures Lookup(ix, w, num).Lost? <==> !exists nodes, v: nat :: PathAnswers(ix, w, num, nodes, v)
  {
    var a := Lookup(ix, w, num);
    if a.Found? {
      LookupFindsExactlyPaths(ix, w, num, a.value, a.netmask);
    }
    forall nodes, v: nat | PathAnswers(ix, w, num, nodes, v)
      ensures a.Found?
    {
      LookupFindsExactlyPaths(ix, w, num, v, |nodes|);
    }
  }

  // ---------------------------------------------------------------- bounds

  /** Every node that a lookup goes on to is numbered below 2^24, so its byte offset is the true product even
      in 32-bit arithmetic, and its pair lies in the first `segments` pairs whenever there is at least one. */
  lemma NodeOffsetFits(ix: Index, node: nat)
    requires ix.Valid() && (node == 0 || node < ix.segments)
    ensures ix.At(node) % TWO_TO_THE_32 == ix.At(node)
    ensures ix.segments >= 1 ==>
              ix.At(node) + ix.PairLength() <= ix.segments * ix.recordLength * 2
  {
    Pow2Values();
    assert ix.recordLength == 3 || ix.recordLength == 4;
  }

  /** A root that is its own child on both sides answers nothing. */
  lemma {:induction false} SelfLoopIsLost(ix: Index, w: nat, num: nat, d: nat)
    requires d <= w && ix.segments >= 1
    requires ix.HasNode(0) ==> ix.Child(0, false) == ix.Child(0, true) == 0
    ensures Descend(ix, w, num, d, 0).Lost?
  {
    if d > 0 {
      SelfLoopIsLost(ix, w, num, d - 1);
    }
  }

  // ---------------------------------------------------------------- the denoted tree

  datatype Tree = Nothing | Leaf(value: nat) | Fork(zero: Tree, one: Tree)

  /** The tree of depth at most `d` that the bytes denote at `node`; shared and cyclic nodes are unrolled. */
  function Denote(ix: Index, d: nat, node: nat): Tree
    decreases d, 0
  {
    if d == 0 || !ix.HasNode(node) then Nothing
    else Fork(DenoteChild(ix, d - 1, ix.Child(node, false)), DenoteChild(ix, d - 1, ix.Child(node, true)))
  }

  function DenoteChild(ix: Index, d: nat, x: nat): Tree
    decreases d, 1
  {
    if x >= ix.segments then Leaf(x) else Denote(ix, d, x)
  }

  /** Lookup in a tree: the structural reading of an address, with the depth of the leaf as its netmask. */
  function Select(t: Tree, num: nat, d: nat, depth: nat): Answer
    decreases t
  {
    match t
    case Nothing => Lost
    case Leaf(v) => Found(v, depth)
    case Fork(l, r) => if d == 0 then Lost else Select(if Bit(num, d - 1) then r else l, num, d - 1, depth + 1)
  }

  /** The walk over the bytes is lookup in the tree that the bytes denote. */
  lemma {:induction false} DescendIsSelect(ix: Index, w: nat, num: nat, d: nat, node: nat)
    requires d <= w
    ensures Descend(ix, w, num, d, node) == Select(Denote(ix, d, node), num, d, w - d)
  {
    if d > 0 && ix.HasNode(node) {
      var x := ix.Child(node, Bit(num, d - 1));
      if x < ix.segments {
        DescendIsSelect(ix, w, num, d - 1, x);
      }
    }
  }

  lemma LookupIsSelect(ix: Index, w: nat, num: nat)
    ensures Lookup(ix, w, num) == Select(Denote(ix, w, 0), num, w, 0)
  {
    DescendIsSelect(ix, w, num, w, 0);
  }
}

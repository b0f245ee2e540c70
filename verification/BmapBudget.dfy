/**
 What is collected when the pointer budget does not cover the tree: exactly the
 records of the leaves among the first pointers, in the order they are followed.
 */
module BmapBudget {
  import opened Words
  import opened Bytes
  import opened Extent
  import opened Btree
  import opened BmapTree

  /** For each pointer below a list of trees, in the order they are followed, the records its own block gives. */
  function PerPointer(ts: seq<Tree>): seq<seq<BmbtRec>>
    decreases ts, 0
  {
    if ts == [] then [] else [OwnRecords(ts[0])] + PerPointerBelow(ts[0]) + PerPointer(ts[1..])
  }

  function PerPointerBelow(t: Tree): seq<seq<BmbtRec>>
    decreases t, 1
  {
    match t
    case LeafNode(_) => []
    case InnerNode(_, _, children) => PerPointer(children)
  }

  function OwnRecords(t: Tree): seq<BmbtRec> {
    match t
    case LeafNode(recs) => recs
    case InnerNode(_, _, _) => []
  }

  function Joined(parts: seq<seq<BmbtRec>>): seq<BmbtRec> {
    if parts == [] then [] else parts[0] + Joined(parts[1..])
  }

  lemma {:induction false} JoinedAppend(a: seq<seq<BmbtRec>>, b: seq<seq<BmbtRec>>)
    ensures Joined(a + b) == Joined(a) + Joined(b)
    decreases |a|
  {
    if a == [] {
      assert a + b == b;
    } else {
      assert (a + b)[1..] == a[1..] + b;
      JoinedAppend(a[1..], b);
    }
  }

  /** The first `n` parts, or all of them. */
  function Prefix(parts: seq<seq<BmbtRec>>, n: nat): seq<seq<BmbtRec>> {
    parts[..Min(n, |parts|)]
  }

  lemma PrefixAppend(a: seq<seq<BmbtRec>>, b: seq<seq<BmbtRec>>, n: nat)
    ensures Prefix(a + b, n) == Prefix(a, n) + Prefix(b, SatSub(n, |a|))
  {}

  lemma {:induction false} BlockWalkCut(g: Graph, fsblock: u64, t: Tree, expectedLevel: nat, budget: nat)
    requires Hangs(g, fsblock, t) && expectedLevel < MAX_BMBT_LEVELS
    ensures var w, below := BlockWalk(g, fsblock, expectedLevel, budget), PerPointerBelow(t);
      && w.recs == OwnRecords(t) + Joined(Prefix(below, budget))
      && w.left == SatSub(budget, |below|)
    decreases t, 1
  {
    match t
    case LeafNode(recs) =>
    case InnerNode(level, keys, children) =>
      var ptrs :| Offers(g, fsblock, Interior(ptrs, level - 1)) && HangsAll(g, ptrs, children);
      PtrsWalkCut(g, ptrs, children, level - 1, budget);
  }

  lemma {:induction false} PtrsWalkCut(g: Graph, ptrs: seq<u64>, ts: seq<Tree>, childLevel: nat, budget: nat)
    requires HangsAll(g, ptrs, ts) && childLevel < MAX_BMBT_LEVELS
    ensures var w, parts := PtrsWalk(g, ptrs, childLevel, budget), PerPointer(ts);
      w.recs == Joined(Prefix(parts, budget)) && w.left == SatSub(budget, |parts|)
    decreases ts, 0
  {
    if ts != [] && budget > 0 {
      var below := PerPointerBelow(ts[0]);
      var first := BlockWalk(g, ptrs[0], childLevel, budget - 1);
      BlockWalkCut(g, ptrs[0], ts[0], childLevel, budget - 1);
      PtrsWalkCut(g, ptrs[1..], ts[1..], childLevel, first.left);
      CutJoins(OwnRecords(ts[0]), below, PerPointer(ts[1..]), budget);
    }
  }

  lemma CutJoins(own: seq<BmbtRec>, below: seq<seq<BmbtRec>>, rest: seq<seq<BmbtRec>>, budget: nat)
    requires budget > 0
    ensures Joined(Prefix([own] + below + rest, budget))
         == own + Joined(Prefix(below, budget - 1)) + Joined(Prefix(rest, SatSub(budget - 1, |below|)))
  {
    var a, b := Prefix(below, budget - 1), Prefix(rest, SatSub(budget - 1, |below|));
    PrefixAppend([own] + below, rest, budget);
    PrefixAppend([own], below, budget);
    assert Prefix([own] + below + rest, budget) == [own] + (a + b);
    JoinedAppend(a, b);
    assert ([own] + (a + b))[1..] == a + b;
  }

  /**
   On a stored tree of any shape and with any budget, the walk collects the records of
   the leaves among the first `budget` pointers, and no others.
   */
  lemma StoredRootCut(image: Image, bs: u32, fork: seq<byte>, ts: seq<Tree>, budget: nat)
    requires StoresRoot(image, bs, fork, ts)
    ensures RootWalk(image, bs, fork, budget).recs == Joined(Prefix(PerPointer(ts), budget))
  {
    var ptrs: seq<u64> :| |ptrs| == |ts| && HoldsRootPtrs(fork, ptrs) && StoresAll(image, bs, ptrs, ts);
    ArrayIsRead(fork, BMDR_HDR_LEN, ptrs);
    StoredTreesHang(image, bs, GraphOf(image, bs), ptrs, ts);
    PtrsWalkCut(GraphOf(image, bs), ptrs, ts, SatSub(BeU16(fork, 0), 1), budget);
  }
}

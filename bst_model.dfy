/** The binary search tree as a value: the key order, the tree shape, the
    operations that the pointer-based tree in module Bst performs, and what
    they guarantee. */
module BstModel {
  import opened BidRecord

  // ---------------------------------------------------------------------------
  // Key order
  // ---------------------------------------------------------------------------

  /** `strLessThan`: string `<`, comparing character by character; a proper
      prefix is smaller than the longer string. */
  predicate StrLess(a: string, b: string)
  {
    if |b| == 0 then false
    else if |a| == 0 then true
    else if a[0] != b[0] then a[0] < b[0]
    else StrLess(a[1..], b[1..])
  }

  /** Lexicographic order stated directly: `a` is a proper prefix of `b`, or
      `a` has the smaller character at the first position where they differ. */
  ghost predicate LexLess(a: string, b: string)
  {
    || (|a| < |b| && a == b[..|a|])
    || exists k :: 0 <= k < |a| && k < |b| && a[..k] == b[..k] && a[k] < b[k]
  }

  lemma {:induction false} StrLessIsLexicographic(a: string, b: string)
    ensures StrLess(a, b) <==> LexLess(a, b)
  {
    if |b| == 0 {
    } else if |a| == 0 {
      assert a == b[..0];
    } else if a[0] != b[0] {
      // Every common prefix of positive length, and a being a prefix of b,
      // would force a[0] == b[0]; so only k == 0 can witness LexLess.
      assert a[..0] == b[..0];
      assert |a| < |b| ==> b[..|a|][0] == b[0];
      forall k | 0 < k <= |a| && k <= |b|
        ensures a[..k][0] == a[0] && b[..k][0] == b[0]
      {
      }
    } else {
      var a', b' := a[1..], b[1..];
      StrLessIsLexicographic(a', b');
      if |a'| < |b'| && a' == b'[..|a'|] {
        assert a == [a[0]] + a' && b[..|a|] == [b[0]] + b'[..|a'|];
      }
      if |a| < |b| && a == b[..|a|] {
        assert a' == b'[..|a'|];
      }
      if k' :| 0 <= k' < |a'| && k' < |b'| && a'[..k'] == b'[..k'] && a'[k'] < b'[k'] {
        assert a[..k' + 1] == [a[0]] + a'[..k'] && b[..k' + 1] == [b[0]] + b'[..k'];
        assert a[k' + 1] < b[k' + 1];
      }
      if k :| 0 <= k < |a| && k < |b| && a[..k] == b[..k] && a[k] < b[k] {
        assert k > 0;
        assert a'[..k - 1] == a[..k][1..] && b'[..k - 1] == b[..k][1..];
        assert a'[k - 1] < b'[k - 1];
      }
    }
  }

  lemma {:induction false} StrLessAsymmetric(a: string, b: string)
    requires StrLess(a, b)
    ensures !StrLess(b, a)
  {
    if |a| > 0 && a[0] == b[0] {
      StrLessAsymmetric(a[1..], b[1..]);
    }
  }

  lemma StrLessIrreflexive(a: string)
    ensures !StrLess(a, a)
  {
    if StrLess(a, a) {
      StrLessAsymmetric(a, a);
    }
  }

  lemma {:induction false} StrLessTransitive(a: string, b: string, c: string)
    requires StrLess(a, b) && StrLess(b, c)
    ensures StrLess(a, c)
  {
    if |a| > 0 && a[0] == b[0] && b[0] == c[0] {
      StrLessTransitive(a[1..], b[1..], c[1..]);
    }
  }

  lemma {:induction false} StrLessTotal(a: string, b: string)
    ensures a == b || StrLess(a, b) || StrLess(b, a)
  {
    if |a| > 0 && |b| > 0 && a[0] == b[0] {
      StrLessTotal(a[1..], b[1..]);
      if a[1..] == b[1..] {
        assert a == [a[0]] + a[1..] && b == [b[0]] + b[1..];
      }
    }
  }

  // ---------------------------------------------------------------------------
  // Trees
  // ---------------------------------------------------------------------------

  /** The shape and contents of the linked nodes reachable from a node. */
  datatype Tree = Tip | Branch(left: Tree, bid: Bid, right: Tree)

  /** The bids stored in a tree, with multiplicity. */
  function Elems(t: Tree): multiset<Bid>
  {
    match t
    case Tip => multiset{}
    case Branch(l, b, r) => Elems(l) + multiset{b} + Elems(r)
  }

  /** Every id in `m` is strictly below `k`. */
  ghost predicate AllBelow(m: multiset<Bid>, k: string)
  {
    forall x | x in m :: StrLess(x.bidId, k)
  }

  /** No id in `m` is strictly below `k`. */
  ghost predicate NoneBelow(m: multiset<Bid>, k: string)
  {
    forall x | x in m :: !StrLess(x.bidId, k)
  }

  /** The search-tree invariant: ids in a left subtree are strictly below the
      node's id; ids in a right subtree are not below it (duplicates go right). */
  ghost predicate Ordered(t: Tree)
  {
    match t
    case Tip => true
    case Branch(l, b, r) =>
      && Ordered(l)
      && Ordered(r)
      && AllBelow(Elems(l), b.bidId)
      && NoneBelow(Elems(r), b.bidId)
  }

  // Small facts about multisets, kept apart so that the tree proofs stay cheap.

  lemma AllBelowSub(m: multiset<Bid>, n: multiset<Bid>, k: string)
    requires AllBelow(m, k) && n <= m
    ensures AllBelow(n, k)
  {
  }

  lemma NoneBelowSub(m: multiset<Bid>, n: multiset<Bid>, k: string)
    requires NoneBelow(m, k) && n <= m
    ensures NoneBelow(n, k)
  {
  }

  lemma AllBelowAdd(m: multiset<Bid>, x: Bid, k: string)
    requires AllBelow(m, k) && StrLess(x.bidId, k)
    ensures AllBelow(m + multiset{x}, k)
  {
  }

  lemma NoneBelowAdd(m: multiset<Bid>, x: Bid, k: string)
    requires NoneBelow(m, k) && !StrLess(x.bidId, k)
    ensures NoneBelow(m + multiset{x}, k)
  {
  }

  lemma MinusLeft<T>(A: multiset<T>, B: multiset<T>, C: multiset<T>, x: T)
    requires x in A
    ensures (A - multiset{x}) + B + C == (A + B + C) - multiset{x}
  {
  }

  lemma MinusRight<T>(A: multiset<T>, B: multiset<T>, C: multiset<T>, x: T)
    requires x in C
    ensures A + B + (C - multiset{x}) == (A + B + C) - multiset{x}
  {
  }

  lemma MinusMiddle<T>(A: multiset<T>, x: T, C: multiset<T>, s: T)
    requires s in C
    ensures A + multiset{s} + (C - multiset{s}) == (A + multiset{x} + C) - multiset{x}
  {
  }

  // ---------------------------------------------------------------------------
  // Insert
  // ---------------------------------------------------------------------------

  /** `Insert`/`addNode`: descend left on a strictly smaller id and right
      otherwise, and hang a new leaf where the descent falls off the tree. */
  function Insert(t: Tree, bid: Bid): Tree
  {
    match t
    case Tip => Branch(Tip, bid, Tip)
    case Branch(l, b, rt) =>
      if StrLess(bid.bidId, b.bidId) then Branch(Insert(l, bid), b, rt)
      else Branch(l, b, Insert(rt, bid))
  }

  /** Insert adds exactly one bid and loses none. */
  lemma {:induction false} InsertElems(t: Tree, bid: Bid)
    ensures Elems(Insert(t, bid)) == Elems(t) + multiset{bid}
  {
    match t
    case Tip =>
    case Branch(l, b, r) =>
      if StrLess(bid.bidId, b.bidId) {
        InsertElems(l, bid);
      } else {
        InsertElems(r, bid);
      }
  }

  lemma {:induction false} InsertOrdered(t: Tree, bid: Bid)
    requires Ordered(t)
    ensures Ordered(Insert(t, bid))
  {
    match t
    case Tip =>
    case Branch(l, b, r) =>
      if StrLess(bid.bidId, b.bidId) {
        InsertOrdered(l, bid);
        InsertElems(l, bid);
        AllBelowAdd(Elems(l), bid, b.bidId);
        assert Insert(t, bid) == Branch(Insert(l, bid), b, r);
      } else {
        InsertOrdered(r, bid);
        InsertElems(r, bid);
        NoneBelowAdd(Elems(r), bid, b.bidId);
        assert Insert(t, bid) == Branch(l, b, Insert(r, bid));
      }
  }

  // ---------------------------------------------------------------------------
  // Search
  // ---------------------------------------------------------------------------

  /** `Search`: walk down from the root, stopping at the first node whose id
      equals `id`; go left when `id` is smaller, right otherwise. */
  function Find(t: Tree, id: string): (r: Option<Bid>)
    ensures r.Some? ==> r.value.bidId == id
  {
    match t
    case Tip => None
    case Branch(l, b, rt) =>
      if b.bidId == id then Some(b)
      else if StrLess(id, b.bidId) then Find(l, id)
      else Find(rt, id)
  }

  /** What Search returns is one of the stored bids. */
  lemma {:induction false} FindSound(t: Tree, id: string)
    ensures Find(t, id).Some? ==> Find(t, id).value in Elems(t)
  {
    match t
    case Tip =>
    case Branch(l, b, r) =>
      FindSound(l, id);
      FindSound(r, id);
  }

  lemma {:induction false} FindComplete(t: Tree, x: Bid)
    requires Ordered(t) && x in Elems(t)
    ensures Find(t, x.bidId).Some?
  {
    match t
    case Branch(l, b, r) =>
      if b.bidId != x.bidId {
        if StrLess(x.bidId, b.bidId) {
          assert x !in Elems(r);
          FindComplete(l, x);
        } else {
          assert x !in Elems(l);
          FindComplete(r, x);
        }
      }
  }

  /** On an ordered tree the walk finds a bid exactly when one with that id is stored. */
  lemma FindIffStored(t: Tree, id: string)
    requires Ordered(t)
    ensures Find(t, id).Some? <==> exists x :: x in Elems(t) && x.bidId == id
  {
    FindSound(t, id);
    if x :| x in Elems(t) && x.bidId == id {
      FindComplete(t, x);
    }
  }

  lemma {:induction false} InsertKeepsOtherFinds(t: Tree, bid: Bid, id: string)
    requires id != bid.bidId
    ensures Find(Insert(t, bid), id) == Find(t, id)
  {
    match t
    case Tip =>
    case Branch(l, b, r) =>
      if StrLess(bid.bidId, b.bidId) {
        InsertKeepsOtherFinds(l, bid, id);
        assert Insert(t, bid) == Branch(Insert(l, bid), b, r);
      } else {
        InsertKeepsOtherFinds(r, bid, id);
        assert Insert(t, bid) == Branch(l, b, Insert(r, bid));
      }
  }

  /** An inserted bid is found again, and searches for other ids return what
      they returned before. */
  lemma InsertThenFind(t: Tree, bid: Bid, id: string)
    requires Ordered(t)
    ensures Find(Insert(t, bid), bid.bidId).Some?
    ensures id != bid.bidId ==> Find(Insert(t, bid), id) == Find(t, id)
  {
    InsertOrdered(t, bid);
    InsertElems(t, bid);
    FindComplete(Insert(t, bid), bid);
    if id != bid.bidId {
      InsertKeepsOtherFinds(t, bid, id);
    }
  }

  // ---------------------------------------------------------------------------
  // Remove
  // ---------------------------------------------------------------------------

  /** The bid of the leftmost node: what the successor loop of `removeNode` reaches. */
  function Leftmost(t: Tree): Bid
    requires t.Branch?
  {
    if t.left.Tip? then t.bid else Leftmost(t.left)
  }

  /** The leftmost bid is one of the stored bids. */
  lemma {:induction false} LeftmostIn(t: Tree)
    requires t.Branch?
    ensures Leftmost(t) in Elems(t)
  {
    if t.left.Branch? {
      LeftmostIn(t.left);
    }
  }

  lemma {:induction false} LeftmostIsMin(t: Tree)
    requires t.Branch? && Ordered(t)
    ensures NoneBelow(Elems(t), Leftmost(t).bidId)
  {
    var m := Leftmost(t);
    if t.left.Tip? {
      StrLessIrreflexive(m.bidId);
    } else {
      LeftmostIsMin(t.left);
      LeftmostIn(t.left);
      assert StrLess(m.bidId, t.bid.bidId);
      forall x | x in Elems(t)
        ensures !StrLess(x.bidId, m.bidId)
      {
        if x in Elems(t.left) {
        } else if x == t.bid {
          StrLessAsymmetric(m.bidId, x.bidId);
        } else if StrLess(x.bidId, m.bidId) {
          StrLessTransitive(x.bidId, m.bidId, t.bid.bidId);
        }
      }
    }
  }

  /** The walk for the leftmost id stops at the leftmost node itself. */
  lemma {:induction false} FindLeftmost(t: Tree)
    requires t.Branch? && Ordered(t)
    ensures Find(t, Leftmost(t).bidId) == Some(Leftmost(t))
  {
    if t.left.Branch? {
      var m := Leftmost(t.left);
      FindLeftmost(t.left);
      LeftmostIn(t.left);
      assert StrLess(m.bidId, t.bid.bidId);
      StrLessIrreflexive(m.bidId);
    }
  }

  /** `removeNode`: find the node by the three-way comparison; splice in the
      right child when there is no left one, the left child when there is no
      right one, and otherwise overwrite the node's bid with the leftmost bid
      of the right subtree and remove that id from the right subtree. */
  function Remove(t: Tree, id: string): Tree
  {
    match t
    case Tip => Tip
    case Branch(l, b, rt) =>
      if StrLess(id, b.bidId) then Branch(Remove(l, id), b, rt)
      else if StrLess(b.bidId, id) then Branch(l, b, Remove(rt, id))
      else if l.Tip? then rt
      else if rt.Tip? then l
      else
        var s := Leftmost(rt);
        Branch(l, s, Remove(rt, s.bidId))
  }

  /** When Search would not find `id`, Remove returns the tree unchanged:
      both walks take the same turns. */
  lemma {:induction false} RemoveAbsent(t: Tree, id: string)
    requires Find(t, id).None?
    ensures Remove(t, id) == t
  {
    match t
    case Tip =>
    case Branch(l, b, r) =>
      StrLessTotal(id, b.bidId);
      if StrLess(id, b.bidId) {
        RemoveAbsent(l, id);
      } else {
        RemoveAbsent(r, id);
      }
  }

  /** The multiset identity of RemoveElems, for one tree. */
  ghost predicate RemovesFound(t: Tree, id: string)
  {
    match Find(t, id)
    case None => Elems(Remove(t, id)) == Elems(t)
    case Some(x) => Elems(Remove(t, id)) == Elems(t) - multiset{x}
  }

  /** Removing the node that holds `b` takes out exactly `b`, given that
      removing the successor's id from a non-empty right subtree takes out
      exactly the successor. */
  lemma RemoveFoundElems(l: Tree, b: Bid, r: Tree)
    requires r.Branch? ==> Elems(Remove(r, Leftmost(r).bidId)) == Elems(r) - multiset{Leftmost(r)}
    ensures RemovesFound(Branch(l, b, r), b.bidId)
  {
    StrLessIrreflexive(b.bidId);
    var t := Branch(l, b, r);
    assert Find(t, b.bidId) == Some(b);
    if l.Branch? && r.Branch? {
      var s := Leftmost(r);
      assert Remove(t, b.bidId) == Branch(l, s, Remove(r, s.bidId));
      LeftmostIn(r);
      MinusMiddle(Elems(l), b, Elems(r), s);
    }
  }

  lemma RemoveElemsLeft(l: Tree, b: Bid, r: Tree, id: string)
    requires StrLess(id, b.bidId) && RemovesFound(l, id)
    ensures RemovesFound(Branch(l, b, r), id)
  {
    StrLessIrreflexive(id);
    var t := Branch(l, b, r);
    assert Find(t, id) == Find(l, id);
    assert Remove(t, id) == Branch(Remove(l, id), b, r);
    if Find(l, id).Some? {
      FindSound(l, id);
      MinusLeft(Elems(l), multiset{b}, Elems(r), Find(l, id).value);
    }
  }

  lemma RemoveElemsRight(l: Tree, b: Bid, r: Tree, id: string)
    requires StrLess(b.bidId, id) && RemovesFound(r, id)
    ensures RemovesFound(Branch(l, b, r), id)
  {
    StrLessIrreflexive(id);
    StrLessAsymmetric(b.bidId, id);
    var t := Branch(l, b, r);
    assert Find(t, id) == Find(r, id);
    assert Remove(t, id) == Branch(l, b, Remove(r, id));
    if Find(r, id).Some? {
      FindSound(r, id);
      MinusRight(Elems(l), multiset{b}, Elems(r), Find(r, id).value);
    }
  }

  /** Remove takes out exactly the bid Search would return, and nothing when
      there is none. */
  lemma {:induction false} RemoveElems(t: Tree, id: string)
    requires Ordered(t)
    ensures RemovesFound(t, id)
  {
    match t
    case Tip =>
    case Branch(l, b, r) =>
      if StrLess(id, b.bidId) {
        RemoveElems(l, id);
        RemoveElemsLeft(l, b, r, id);
      } else if StrLess(b.bidId, id) {
        RemoveElems(r, id);
        RemoveElemsRight(l, b, r, id);
      } else {
        StrLessTotal(id, b.bidId);
        if r.Branch? {
          FindLeftmost(r);
          RemoveElems(r, Leftmost(r).bidId);
        }
        RemoveFoundElems(l, b, r);
      }
  }

  /** Remove never adds a bid. */
  lemma RemoveSubset(t: Tree, id: string)
    requires Ordered(t)
    ensures Elems(Remove(t, id)) <= Elems(t)
  {
    RemoveElems(t, id);
    if Find(t, id).Some? {
      var x := Find(t, id).value;
      assert Elems(t) - multiset{x} <= Elems(t);
    }
  }

  /** In the two-child case the promoted bid separates the two subtrees. */
  lemma RemoveTwoChildrenOrdered(l: Tree, b: Bid, r: Tree)
    requires Ordered(Branch(l, b, r)) && l.Branch? && r.Branch?
    requires Ordered(Remove(r, Leftmost(r).bidId))
    ensures Ordered(Branch(l, Leftmost(r), Remove(r, Leftmost(r).bidId)))
  {
    var s := Leftmost(r);
    LeftmostIsMin(r);
    LeftmostIn(r);
    RemoveSubset(r, s.bidId);
    NoneBelowSub(Elems(r), Elems(Remove(r, s.bidId)), s.bidId);
    assert !StrLess(s.bidId, b.bidId);
    forall x | x in Elems(l)
      ensures StrLess(x.bidId, s.bidId)
    {
      StrLessTotal(s.bidId, b.bidId);
      if s.bidId != b.bidId {
        StrLessTransitive(x.bidId, b.bidId, s.bidId);
      }
    }
  }

  lemma RemoveOrderedLeft(l: Tree, b: Bid, r: Tree, id: string)
    requires Ordered(Branch(l, b, r)) && StrLess(id, b.bidId)
    requires Ordered(Remove(l, id))
    ensures Ordered(Remove(Branch(l, b, r), id))
  {
    RemoveSubset(l, id);
    AllBelowSub(Elems(l), Elems(Remove(l, id)), b.bidId);
    assert Remove(Branch(l, b, r), id) == Branch(Remove(l, id), b, r);
  }

  lemma RemoveOrderedRight(l: Tree, b: Bid, r: Tree, id: string)
    requires Ordered(Branch(l, b, r)) && StrLess(b.bidId, id)
    requires Ordered(Remove(r, id))
    ensures Ordered(Remove(Branch(l, b, r), id))
  {
    RemoveSubset(r, id);
    NoneBelowSub(Elems(r), Elems(Remove(r, id)), b.bidId);
    StrLessAsymmetric(b.bidId, id);
    assert Remove(Branch(l, b, r), id) == Branch(l, b, Remove(r, id));
  }

  lemma {:induction false} RemoveOrdered(t: Tree, id: string)
    requires Ordered(t)
    ensures Ordered(Remove(t, id))
  {
    match t
    case Tip =>
    case Branch(l, b, r) =>
      if StrLess(id, b.bidId) {
        RemoveOrdered(l, id);
        RemoveOrderedLeft(l, b, r, id);
      } else if StrLess(b.bidId, id) {
        RemoveOrdered(r, id);
        RemoveOrderedRight(l, b, r, id);
      } else if l.Branch? && r.Branch? {
        RemoveOrdered(r, Leftmost(r).bidId);
        RemoveTwoChildrenOrdered(l, b, r);
      }
  }

  /** Remove keeps the tree ordered; it changes nothing when Search would not
      find `id`, and otherwise takes out exactly the bid Search would return. */
  lemma RemoveCorrect(t: Tree, id: string)
    requires Ordered(t)
    ensures Ordered(Remove(t, id))
    ensures Find(t, id).None? ==> Remove(t, id) == t
    ensures Find(t, id).Some? ==> Elems(Remove(t, id)) == Elems(t) - multiset{Find(t, id).value}
  {
    RemoveOrdered(t, id);
    RemoveElems(t, id);
    if Find(t, id).None? {
      RemoveAbsent(t, id);
    }
  }

  /** When no other stored bid carries `id`, Search no longer finds `id` after Remove. */
  lemma RemoveThenFind(t: Tree, id: string)
    requires Ordered(t) && Find(t, id).Some?
    requires forall x | x in Elems(t) - multiset{Find(t, id).value} :: x.bidId != id
    ensures Find(Remove(t, id), id).None?
  {
    RemoveCorrect(t, id);
    FindIffStored(Remove(t, id), id);
  }

  // ---------------------------------------------------------------------------
  // Traversals
  // ---------------------------------------------------------------------------

  /** `inOrder`: left subtree, node, right subtree. */
  function InOrder(t: Tree): seq<Bid>
  {
    match t
    case Tip => []
    case Branch(l, b, r) => InOrder(l) + [b] + InOrder(r)
  }

  /** `preOrder`: node, left subtree, right subtree. */
  function PreOrder(t: Tree): seq<Bid>
  {
    match t
    case Tip => []
    case Branch(l, b, r) => [b] + PreOrder(l) + PreOrder(r)
  }

  /** `postOrder`: left subtree, right subtree, node. */
  function PostOrder(t: Tree): seq<Bid>
  {
    match t
    case Tip => []
    case Branch(l, b, r) => PostOrder(l) + PostOrder(r) + [b]
  }

  /** The in-order walk visits every stored bid exactly once. */
  lemma {:induction false} InOrderElems(t: Tree)
    ensures multiset(InOrder(t)) == Elems(t)
  {
    match t
    case Tip =>
    case Branch(l, b, r) =>
      InOrderElems(l);
      InOrderElems(r);
  }

  /** The pre-order walk visits every stored bid exactly once, the root's first. */
  lemma {:induction false} PreOrderElems(t: Tree)
    ensures multiset(PreOrder(t)) == Elems(t)
    ensures t.Branch? ==> PreOrder(t)[0] == t.bid
  {
    match t
    case Tip =>
    case Branch(l, b, r) =>
      PreOrderElems(l);
      PreOrderElems(r);
  }

  /** The post-order walk visits every stored bid exactly once, the root's last. */
  lemma {:induction false} PostOrderElems(t: Tree)
    ensures multiset(PostOrder(t)) == Elems(t)
    ensures t.Branch? ==> PostOrder(t)[|PostOrder(t)| - 1] == t.bid
  {
    match t
    case Tip =>
    case Branch(l, b, r) =>
      PostOrderElems(l);
      PostOrderElems(r);
  }

  /** Ids never decrease along the sequence. */
  ghost predicate Sorted(s: seq<Bid>)
  {
    forall i, j | 0 <= i < j < |s| :: !StrLess(s[j].bidId, s[i].bidId)
  }

  /** Joining two sorted runs around a pivot that separates them stays sorted. */
  lemma SortedAround(L: seq<Bid>, b: Bid, R: seq<Bid>)
    requires Sorted(L) && Sorted(R)
    requires forall i | 0 <= i < |L| :: StrLess(L[i].bidId, b.bidId)
    requires forall i | 0 <= i < |R| :: !StrLess(R[i].bidId, b.bidId)
    ensures Sorted(L + [b] + R)
  {
    var s := L + [b] + R;
    forall i, j | 0 <= i < j < |s|
      ensures !StrLess(s[j].bidId, s[i].bidId)
    {
      if j < |L| {
        assert s[i] == L[i] && s[j] == L[j];
      } else if i > |L| {
        assert s[i] == R[i - |L| - 1] && s[j] == R[j - |L| - 1];
      } else if i == |L| {
        assert s[j] == R[j - |L| - 1];
      } else if j == |L| {
        assert s[i] == L[i];
        StrLessAsymmetric(s[i].bidId, b.bidId);
      } else {
        assert s[i] == L[i] && s[j] == R[j - |L| - 1];
        if StrLess(s[j].bidId, s[i].bidId) {
          StrLessTransitive(s[j].bidId, s[i].bidId, b.bidId);
        }
      }
    }
  }

  lemma {:induction false} InOrderSorted(t: Tree)
    requires Ordered(t)
    ensures Sorted(InOrder(t))
  {
    match t
    case Tip =>
    case Branch(l, b, r) =>
      InOrderSorted(l);
      InOrderSorted(r);
      InOrderElems(l);
      InOrderElems(r);
      var L, R := InOrder(l), InOrder(r);
      forall i | 0 <= i < |L|
        ensures StrLess(L[i].bidId, b.bidId)
      {
        assert L[i] in multiset(L);
      }
      forall i | 0 <= i < |R|
        ensures !StrLess(R[i].bidId, b.bidId)
      {
        assert R[i] in multiset(R);
      }
      SortedAround(L, b, R);
  }
}

/**
 * The binary search tree of bids as linked heap nodes: `Insert` (through the
 * recursive `AddNode`), `Search` (a loop down from the root), `Remove`
 * (through the recursive `RemoveNode`, which rewires child links and copies
 * the in-order successor's bid) and the three traversals.
 *
 * Every node carries, as ghost state, the set of objects reachable from it
 * (`Repr`) and the tree they form (`Model`); the operations are proved against
 * the functions of `BstModel` applied to that tree.
 */
module Bst {
  import opened BidRecord
  import opened BstModel

  /** A tree node: a bid and two child links. */
  class Node {
    var bid: Bid
    var left: Node?
    var right: Node?

    ghost var Repr: set<object>
    ghost var Model: Tree

    /** The node owns itself and its two disjoint subtrees, each of which is
        valid, and `Model` is the tree those links form. */
    ghost predicate Valid()
      reads this, Repr
      decreases Repr
    {
      && this in Repr
      && (left != null ==>
            && left in Repr
            && left.Repr <= Repr
            && this !in left.Repr
            && left.Valid())
      && (right != null ==>
            && right in Repr
            && right.Repr <= Repr
            && this !in right.Repr
            && right.Valid())
      && (left != null && right != null ==> left.Repr !! right.Repr)
      && Model == Branch(if left == null then Tip else left.Model, bid,
                         if right == null then Tip else right.Model)
    }

    /** `Node(Bid aBid)`: a leaf holding `b`. */
    constructor (b: Bid)
      ensures Valid() && fresh(Repr)
      ensures bid == b && left == null && right == null
      ensures Model == Branch(Tip, b, Tip)
    {
      bid := b;
      left := null;
      right := null;
      Repr := {this};
      Model := Branch(Tip, b, Tip);
    }
  }

  /** The objects owned by a possibly-null subtree. */
  ghost function ReprOf(n: Node?): set<object>
    reads n
  {
    if n == null then {} else n.Repr
  }

  /** The tree rooted at a possibly-null link. */
  ghost function ModelOf(n: Node?): Tree
    reads n
  {
    if n == null then Tip else n.Model
  }

  /** `inOrder(Node*)`: the bids visited, in visiting order. */
  function InOrderFrom(n: Node?): (s: seq<Bid>)
    requires n != null ==> n.Valid()
    reads if n == null then {} else {n} + n.Repr
    decreases ReprOf(n)
    ensures s == BstModel.InOrder(ModelOf(n))
  {
    if n == null then [] else InOrderFrom(n.left) + [n.bid] + InOrderFrom(n.right)
  }

  /** `preOrder(Node*)`: the bids visited, in visiting order. */
  function PreOrderFrom(n: Node?): (s: seq<Bid>)
    requires n != null ==> n.Valid()
    reads if n == null then {} else {n} + n.Repr
    decreases ReprOf(n)
    ensures s == BstModel.PreOrder(ModelOf(n))
  {
    if n == null then [] else [n.bid] + PreOrderFrom(n.left) + PreOrderFrom(n.right)
  }

  /** `postOrder(Node*)`: the bids visited, in visiting order. */
  function PostOrderFrom(n: Node?): (s: seq<Bid>)
    requires n != null ==> n.Valid()
    reads if n == null then {} else {n} + n.Repr
    decreases ReprOf(n)
    ensures s == BstModel.PostOrder(ModelOf(n))
  {
    if n == null then [] else PostOrderFrom(n.left) + PostOrderFrom(n.right) + [n.bid]
  }

  /** The tree object: a root link, null for the empty tree. */
  class BinarySearchTree {
    var root: Node?

    /** The objects the tree owns: itself and the nodes under its root. */
    ghost function Repr(): set<object>
      reads this, root
    {
      {this} + ReprOf(root)
    }

    /** The bids under the root, as a tree. */
    ghost function Model(): Tree
      reads this, root
    {
      ModelOf(root)
    }

    /** The nodes under the root are well formed and keep the bids in
        search-tree order. */
    ghost predicate Valid()
      reads this, root, ReprOf(root)
    {
      && (root != null ==> this !in root.Repr && root.Valid())
      && Ordered(ModelOf(root))
    }

    /** The default constructor: an empty tree. */
    constructor ()
      ensures Valid() && fresh(Repr())
      ensures Model() == Tip
    {
      root := null;
    }

    /** `Insert`: a new root when the tree is empty, otherwise `AddNode` from
        the root. */
    method Insert(bid: Bid)
      requires Valid()
      modifies this, ReprOf(root)
      ensures Valid() && fresh(Repr() - old(Repr()))
      ensures Model() == BstModel.Insert(old(Model()), bid)
    {
      InsertOrdered(ModelOf(root), bid);
      if root == null {
        root := new Node(bid);
      } else {
        AddNode(root, bid);
      }
    }

    /** `addNode`: go left when the new id is strictly smaller, right
        otherwise, and hang a new leaf on the first missing link. */
    static method AddNode(node: Node, bid: Bid)
      requires node.Valid()
      modifies node.Repr
      decreases node.Repr
      ensures node.Valid() && fresh(node.Repr - old(node.Repr))
      ensures node.Model == BstModel.Insert(old(node.Model), bid)
    {
      ghost var L, R := ModelOf(node.left), ModelOf(node.right);
      if StrLess(bid.bidId, node.bid.bidId) {
        if node.left == null {
          node.left := new Node(bid);
        } else {
          AddNode(node.left, bid);
        }
        node.Repr := node.Repr + node.left.Repr;
        assert ModelOf(node.left) == BstModel.Insert(L, bid);
        assert ModelOf(node.right) == R;
        node.Model := Branch(BstModel.Insert(L, bid), node.bid, R);
      } else {
        if node.right == null {
          node.right := new Node(bid);
        } else {
          AddNode(node.right, bid);
        }
        node.Repr := node.Repr + node.right.Repr;
        assert ModelOf(node.right) == BstModel.Insert(R, bid);
        assert ModelOf(node.left) == L;
        node.Model := Branch(L, node.bid, BstModel.Insert(R, bid));
      }
    }

    /** `Search`: walk down from the root; return the first bid whose id
        equals `bidId`, or an empty bid when the walk falls off the tree. */
    method Search(bidId: string) returns (b: Bid)
      requires Valid()
      ensures Find(Model(), bidId).Some? ==> b == Find(Model(), bidId).value
      ensures Find(Model(), bidId).None? ==> b == EmptyBid
      ensures (exists x :: x in Elems(Model()) && x.bidId == bidId) ==> b.bidId == bidId
    {
      FindIffStored(ModelOf(root), bidId);
      var current := root;
      while current != null
        invariant current != null ==> current.Valid()
        invariant Find(ModelOf(root), bidId) == Find(ModelOf(current), bidId)
        decreases ReprOf(current)
      {
        if current.bid.bidId == bidId {
          return current.bid;
        }
        current := if StrLess(bidId, current.bid.bidId) then current.left else current.right;
      }
      return EmptyBid;
    }

    /** `Remove`: replace the root by what `RemoveNode` returns. */
    method Remove(bidId: string)
      requires Valid()
      modifies this, ReprOf(root)
      ensures Valid() && Repr() <= old(Repr())
      ensures Model() == BstModel.Remove(old(Model()), bidId)
    {
      RemoveOrdered(ModelOf(root), bidId);
      root := RemoveNode(root, bidId);
    }

    /** `removeNode`: find the node by comparing ids; with no left child it
        is replaced by its right child, with no right child by its left
        child, and otherwise it takes the bid of the leftmost node of its
        right subtree, whose id is then removed from that subtree. */
    static method RemoveNode(node: Node?, bidId: string) returns (r: Node?)
      requires node != null ==> node.Valid()
      modifies ReprOf(node)
      decreases ReprOf(node)
      ensures r != null ==> r.Valid()
      ensures ReprOf(r) <= old(ReprOf(node))
      ensures ModelOf(r) == BstModel.Remove(old(ModelOf(node)), bidId)
    {
      if node == null {
        return node;
      }
      if StrLess(bidId, node.bid.bidId) {
        var l := RemoveNode(node.left, bidId);
        node.left := l;
      } else if StrLess(node.bid.bidId, bidId) {
        var rt := RemoveNode(node.right, bidId);
        node.right := rt;
      } else {
        if node.left == null {
          return node.right;
        } else if node.right == null {
          return node.left;
        }
        // the in-order successor: the leftmost node of the right subtree
        var temp: Node := node.right;
        while temp.left != null
          invariant temp.Valid()
          invariant Leftmost(temp.Model) == Leftmost(node.right.Model)
          decreases temp.Repr
        {
          temp := temp.left;
        }
        node.bid := temp.bid;
        var rt := RemoveNode(node.right, temp.bid.bidId);
        node.right := rt;
      }
      node.Model := Branch(ModelOf(node.left), node.bid, ModelOf(node.right));
      return node;
    }

    /** `InOrder`: the bids in visiting order, which is ascending by id. */
    function InOrder(): (s: seq<Bid>)
      requires Valid()
      reads this, ReprOf(root)
      ensures s == BstModel.InOrder(Model())
      ensures Sorted(s) && multiset(s) == Elems(Model())
    {
      InOrderSorted(ModelOf(root));
      InOrderElems(ModelOf(root));
      InOrderFrom(root)
    }

    /** `PreOrder`: the bids in visiting order, the root's bid first. */
    function PreOrder(): (s: seq<Bid>)
      requires Valid()
      reads this, ReprOf(root)
      ensures s == BstModel.PreOrder(Model())
      ensures multiset(s) == Elems(Model())
    {
      PreOrderElems(ModelOf(root));
      PreOrderFrom(root)
    }

    /** `PostOrder`: the bids in visiting order, the root's bid last. */
    function PostOrder(): (s: seq<Bid>)
      requires Valid()
      reads this, ReprOf(root)
      ensures s == BstModel.PostOrder(Model())
      ensures multiset(s) == Elems(Model())
    {
      PostOrderElems(ModelOf(root));
      PostOrderFrom(root)
    }
  }
}

/**
 * The chaining hash table as heap objects: a fixed array of slot nodes, each
 * either empty (key `UINT_MAX`) or holding the first bid of its bucket and a
 * link to the rest of the bucket's chain.
 *
 * The table carries, as ghost state, each bucket's chain of node objects
 * (`Chains`, slot first) and the bids stored in it (`Buckets`, in the same
 * order). Each operation is proved against the functions of `HashModel`
 * applied to `Buckets`.
 */
module HashTables {
  import opened BidRecord
  import opened HashModel

  /** `HashTable::Node`: a bid, the key of the bucket it is filed under
      (`UINT_MAX` in an empty slot), and the next link of the chain. */
  class Node {
    var bid: Bid
    var key: uint32
    var next: Node?

    /** `Node()`: an empty slot. */
    constructor ()
      ensures bid == EmptyBid && key == UINT_MAX && next == null
    {
      bid := EmptyBid;
      key := UINT_MAX;
      next := null;
    }

    /** `Node(Bid aBid)`: a bid with the empty-slot key. */
    constructor WithBid(b: Bid)
      ensures bid == b && key == UINT_MAX && next == null
    {
      bid := b;
      key := UINT_MAX;
      next := null;
    }

    /** `Node(Bid aBid, unsigned int aKey)`. */
    constructor WithKey(b: Bid, k: uint32)
      ensures bid == b && key == k && next == null
    {
      bid := b;
      key := k;
      next := null;
    }
  }


  /** Between the two states of a step, node `o` keeps its fields unless it
      is `x`, the node the step writes. */
  twostate predicate KeptUnless(o: Node, x: Node)
    reads o
  {
    o != x ==> o.bid == old(o.bid) && o.key == old(o.key) && o.next == old(o.next)
  }

  /** Places after `r` in chain `k` move one down, as when the node at `r`
      leaves the chain. */
  ghost function ShiftDown(P: map<Node, (int, int)>, k: int, r: int): map<Node, (int, int)>
  {
    map o | o in P :: if P[o].0 == k && P[o].1 > r then (k, P[o].1 - 1) else P[o]
  }

  lemma ShiftDownAt(P: map<Node, (int, int)>, k: int, r: int, o: Node)
    requires o in P
    ensures o in ShiftDown(P, k, r)
    ensures ShiftDown(P, k, r)[o] == if P[o].0 == k && P[o].1 > r then (k, P[o].1 - 1) else P[o]
  {
  }

  class HashTable {
    const tableSize: uint32
    const nodes: array<Node>

    ghost var Chains: seq<seq<Node>>
    ghost var Buckets: seq<seq<Bid>>
    ghost var Repr: set<object>
    ghost var Pos: map<Node, (int, int)>

    /** The sizes agree: `tableSize` slots, chains and buckets. */
    ghost predicate Sized()
      reads this
    {
      && 0 < tableSize
      && nodes.Length == tableSize
      && |Chains| == tableSize
      && |Buckets| == tableSize
    }

    /** Chain `i` starts at slot `i`, and `Pos` gives each node its one
        place, so no node belongs to two chains or twice to one. */
    ghost predicate Placed()
      reads this, nodes
      requires Sized()
    {
      && (forall i | 0 <= i < tableSize :: 0 < |Chains[i]| && Chains[i][0] == nodes[i])
      && (forall i, j | 0 <= i < tableSize && 0 <= j < |Chains[i]| ::
            Chains[i][j] in Repr && Chains[i][j] in Pos && Pos[Chains[i][j]] == (i, j))
    }

    /** Each node of a chain links to the next one, the last to nothing. */
    ghost predicate Linked()
      reads this, nodes, Repr
      requires Sized() && Placed()
    {
      forall i, j {:trigger Chains[i][j].next} | 0 <= i < tableSize && 0 <= j < |Chains[i]| ::
        Chains[i][j].next == if j + 1 < |Chains[i]| then Chains[i][j + 1] else null
    }

    /** An empty slot has no chain and its bucket is empty; otherwise the
        chain's nodes hold the bucket's bids in order, each keyed with the
        bucket's index. */
    ghost predicate Stored()
      reads this, nodes, Repr
      requires Sized() && Placed()
    {
      && (forall i | 0 <= i < tableSize ::
            if nodes[i].key == UINT_MAX then |Chains[i]| == 1 && Buckets[i] == []
            else |Buckets[i]| == |Chains[i]|)
      && (forall i, j | 0 <= i < tableSize && 0 <= j < |Buckets[i]| ::
            j < |Chains[i]| && Chains[i][j].bid == Buckets[i][j] && Chains[i][j].key == i)
    }

    /** The slots and chains are well formed and hold `Buckets`, and every
        bid is filed under the bucket its id hashes to. */
    ghost predicate Valid()
      reads this, nodes, Repr
    {
      && Sized()
      && Placed()
      && Linked()
      && Stored()
      && WellHashed(Buckets, tableSize)
    }

    /** A slot is marked empty exactly when its bucket holds no bid, and
        an empty slot never has a chain. */
    lemma EmptySlots()
      requires Valid()
      ensures forall i | 0 <= i < tableSize :: nodes[i].key == UINT_MAX <==> Buckets[i] == []
      ensures forall i | 0 <= i < tableSize :: nodes[i].key == UINT_MAX ==> nodes[i].next == null
    {
      forall i | 0 <= i < tableSize
        ensures nodes[i].key == UINT_MAX ==> nodes[i].next == null
      {
        assert nodes[i] == Chains[i][0];
        assert Chains[i][0].next == if 1 < |Chains[i]| then Chains[i][1] else null;
      }
    }

    /** Every stored entry, slot or chain node, is keyed with the bucket its
        id hashes to, which is never the empty-slot key. */
    lemma EntryKeys()
      requires Valid()
      ensures forall i, j | 0 <= i < tableSize && 0 <= j < |Buckets[i]| ::
        && Chains[i][j].bid == Buckets[i][j]
        && Chains[i][j].key == BucketOf(Buckets[i][j].bidId, tableSize)
        && Chains[i][j].key != UINT_MAX
    {
    }

    /** `nodes.resize(n)`: `n` distinct default-constructed, empty slots. */
    static method AllocateSlots(n: nat) returns (a: array<Node>, ghost s: seq<Node>)
      ensures fresh(a) && a.Length == n && a[..] == s
      ensures forall i | 0 <= i < n :: fresh(s[i]) && s[i].key == UINT_MAX && s[i].next == null
      ensures forall i, j | 0 <= i < j < n :: s[i] != s[j]
    {
      var t: seq<Node> := [];
      while |t| < n
        invariant |t| <= n
        invariant forall i | 0 <= i < |t| :: fresh(t[i]) && t[i].key == UINT_MAX && t[i].next == null
        invariant forall i, j | 0 <= i < j < |t| :: t[i] != t[j]
      {
        var slot := new Node();
        t := t + [slot];
      }
      a := new Node[n](i requires 0 <= i < n => t[i]);
      s := t;
    }

    /** A table whose slots are the distinct empty nodes `s`, each chain
        being its slot alone, is valid and holds no bid. */
    lemma EmptyValid(s: seq<Node>)
      requires 0 < tableSize == |s| && nodes[..] == s
      requires forall i | 0 <= i < |s| :: s[i].key == UINT_MAX && s[i].next == null
      requires forall i, j | 0 <= i < j < |s| :: s[i] != s[j]
      requires Chains == seq(|s|, i requires 0 <= i < |s| => [s[i]])
      requires Buckets == seq(|s|, _ => [])
      requires forall i | 0 <= i < |s| :: s[i] in Repr && s[i] in Pos && Pos[s[i]] == (i, 0)
      ensures Valid()
    {
    }

    /** The default constructor: `DEFAULT_SIZE` empty slots. */
    constructor ()
      ensures Valid() && fresh(Repr)
      ensures tableSize == DEFAULT_SIZE
      ensures forall i | 0 <= i < tableSize :: nodes[i].key == UINT_MAX && nodes[i].next == null
      ensures Buckets == seq(DEFAULT_SIZE, _ => [])
    {
      tableSize := DEFAULT_SIZE;
      var a: array<Node>;
      ghost var s: seq<Node>;
      a, s := AllocateSlots(DEFAULT_SIZE);
      nodes := a;
      Chains := seq(DEFAULT_SIZE, i requires 0 <= i < DEFAULT_SIZE => [s[i]]);
      Buckets := seq(DEFAULT_SIZE, _ => []);
      Repr := set i | 0 <= i < DEFAULT_SIZE :: s[i];
      Pos := map i | 0 <= i < DEFAULT_SIZE :: s[i] := (i, 0);
      new;
      EmptyValid(s);
    }

    /** `HashTable(unsigned int size)`: `size` empty slots. */
    constructor WithSize(size: uint32)
      requires 0 < size
      ensures Valid() && fresh(Repr)
      ensures tableSize == size
      ensures forall i | 0 <= i < tableSize :: nodes[i].key == UINT_MAX && nodes[i].next == null
      ensures Buckets == seq(size, _ => [])
    {
      tableSize := size;
      var a: array<Node>;
      ghost var s: seq<Node>;
      a, s := AllocateSlots(size);
      nodes := a;
      Chains := seq(size, i requires 0 <= i < size => [s[i]]);
      Buckets := seq(size, _ => []);
      Repr := set i | 0 <= i < size :: s[i];
      Pos := map i | 0 <= i < size :: s[i] := (i, 0);
      new;
      EmptyValid(s);
    }

    /** Filling the empty slot `key` with a bid that hashes there keeps the
        table valid. */
    twostate lemma FilledSlotValid(key: int)
      requires old(Valid())
      requires 0 <= key < tableSize && old(nodes[key].key) == UINT_MAX
      requires ValidId(nodes[key].bid.bidId) && BucketOf(nodes[key].bid.bidId, tableSize) == key
      requires unchanged(nodes) && Chains == old(Chains) && Pos == old(Pos) && Repr == old(Repr)
      requires Buckets == old(Buckets)[key := [nodes[key].bid]]
      requires nodes[key].key == key && nodes[key].next == null
      requires forall i, j | 0 <= i < tableSize && 0 <= j < |old(Chains[i])| ::
        KeptUnless(old(Chains[i][j]), nodes[key])
      ensures Valid()
    {
      WellHashedAppend(old(Buckets), tableSize, key, nodes[key].bid);
    }

    /** The last node of chain `key`. */
    ghost function LastOf(key: int): Node
      reads this
      requires 0 <= key < |Chains| && 0 < |Chains[key]|
    {
      Chains[key][|Chains[key]| - 1]
    }

    /** The step that links a new node holding `b`, a bid that hashes
        to `key`, after the last node `x` of the occupied chain `key`: it
        joins the end of the chain and `b` the end of the bucket; no old
        node other than `x` changes. */
    twostate predicate AppendStep(key: int)
      reads this, nodes, Repr
    {
      && old(Sized() && Placed())
      && 0 <= key < tableSize && old(nodes[key].key) != UINT_MAX
      && |Chains| == tableSize && |Chains[key]| == |old(Chains[key])| + 1
      && var x := old(Chains[key][|Chains[key]| - 1]);
      && LastOf(key) !in old(Repr)
      && unchanged(nodes)
      && Chains == old(Chains)[key := old(Chains[key]) + [LastOf(key)]]
      && Pos == old(Pos)[LastOf(key) := (key, |old(Chains[key])|)]
      && Repr == old(Repr) + {LastOf(key)}
      && Buckets == old(Buckets)[key := old(Buckets[key]) + [LastOf(key).bid]]
      && ValidId(LastOf(key).bid.bidId) && BucketOf(LastOf(key).bid.bidId, tableSize) == key
      && LastOf(key).key == key && LastOf(key).next == null
      && x.bid == old(x.bid) && x.key == old(x.key) && x.next == LastOf(key)
      && forall i, j | 0 <= i < tableSize && 0 <= j < |old(Chains[i])| ::
           KeptUnless(old(Chains[i][j]), x)
    }

    twostate lemma AppendedPlaced(key: int)
      requires AppendStep(key)
      ensures Sized() && Placed()
    {
      forall i, t | 0 <= i < tableSize && 0 <= t < |Chains[i]|
        ensures Chains[i][t] in Repr && Chains[i][t] in Pos && Pos[Chains[i][t]] == (i, t)
      {
        if i != key || t < |old(Chains[key])| {
          assert Chains[i][t] == old(Chains[i][t]) && old(Chains[i][t]) in old(Repr);
        }
      }
    }

    twostate lemma AppendedLinked(key: int)
      requires AppendStep(key) && old(Linked()) && Sized() && Placed()
      ensures Linked()
    {
    }

    twostate lemma AppendedStored(key: int)
      requires AppendStep(key) && old(Stored()) && Sized() && Placed()
      ensures Stored()
    {
      ghost var x := old(Chains[key][|Chains[key]| - 1]);
      forall i | 0 <= i < tableSize
        ensures if nodes[i].key == UINT_MAX then |Chains[i]| == 1 && Buckets[i] == []
                else |Buckets[i]| == |Chains[i]|
      {
        assert nodes[i] == old(Chains[i][0]);
        assert KeptUnless(old(Chains[i][0]), x);
      }
      forall i, t | 0 <= i < tableSize && 0 <= t < |Buckets[i]|
        ensures t < |Chains[i]| && Chains[i][t].bid == Buckets[i][t] && Chains[i][t].key == i
      {
        if i != key || t < |old(Chains[key])| {
          assert KeptUnless(old(Chains[i][t]), x);
        }
      }
    }

    /** Appending keeps the table valid. */
    twostate lemma AppendedValid(key: int)
      requires old(Valid()) && AppendStep(key)
      ensures Valid()
    {
      AppendedPlaced(key);
      AppendedLinked(key);
      AppendedStored(key);
      WellHashedAppend(old(Buckets), tableSize, key, LastOf(key).bid);
    }

    /** The step that links the node `x` before place `place == (key, j)`,
        `j > 0`, to the node after that place: the place leaves chain `key`
        and its bid leaves the bucket; no other node changes. */
    twostate predicate UnlinkStep(place: (int, int))
      reads this, nodes, Repr
    {
      var (key, j) := place;
      && old(Sized() && Placed())
      && Repr == old(Repr)
      && 0 <= key < tableSize && 0 < j < |old(Chains[key])| && old(nodes[key].key) != UINT_MAX
      && |old(Buckets[key])| == |old(Chains[key])|
      && var x := old(Chains[key][j - 1]);
      && unchanged(nodes)
      && Chains == old(Chains)[key := old(Chains[key][..j] + Chains[key][j + 1..])]
      && Pos == ShiftDown(old(Pos), key, j)
      && Buckets == old(Buckets)[key := old(Buckets[key][..j] + Buckets[key][j + 1..])]
      && x.bid == old(x.bid) && x.key == old(x.key) && x.next == old(Chains[key][j].next)
      && forall i, t | 0 <= i < tableSize && 0 <= t < |old(Chains[i])| ::
           KeptUnless(old(Chains[i][t]), x)
    }

    twostate lemma UnlinkedPlaced(place: (int, int))
      requires old(Sized() && Placed()) && Repr == old(Repr) && unchanged(nodes)
      requires 0 <= place.0 < tableSize && 0 < place.1 < |old(Chains[place.0])|
      requires Chains == old(Chains)[place.0 := old(Chains[place.0][..place.1] + Chains[place.0][place.1 + 1..])]
      requires Pos == ShiftDown(old(Pos), place.0, place.1)
      requires |Buckets| == tableSize
      ensures Sized() && Placed()
    {
      ghost var (key, j) := place;
      forall i | 0 <= i < tableSize
        ensures 0 < |Chains[i]| && Chains[i][0] == nodes[i]
      {
      }
      ghost var c := old(Chains[key]);
      RemovedAt(c, j);
      forall i, t | 0 <= i < tableSize && i != key && 0 <= t < |Chains[i]|
        ensures Chains[i][t] in Repr && Chains[i][t] in Pos && Pos[Chains[i][t]] == (i, t)
      {
        assert Chains[i] == old(Chains[i]);
        assert old(Pos)[Chains[i][t]] == (i, t);
        ShiftDownAt(old(Pos), key, j, Chains[i][t]);
      }
      forall t | 0 <= t < j
        ensures Chains[key][t] in Repr && Chains[key][t] in Pos && Pos[Chains[key][t]] == (key, t)
      {
        assert Chains[key][t] == c[t];
        assert old(Pos)[c[t]] == (key, t);
        ShiftDownAt(old(Pos), key, j, c[t]);
      }
      forall t | j <= t < |c| - 1
        ensures Chains[key][t] in Repr && Chains[key][t] in Pos && Pos[Chains[key][t]] == (key, t)
      {
        assert Chains[key][t] == c[t + 1];
        assert old(Pos)[c[t + 1]] == (key, t + 1);
        ShiftDownAt(old(Pos), key, j, c[t + 1]);
      }
    }

    /** Of the old nodes only the one before `place` is the node `x` the
        step writes. */
    twostate lemma UnlinkedOthers(place: (int, int))
      requires UnlinkStep(place)
      ensures forall i, t | 0 <= i < tableSize && 0 <= t < |old(Chains[i])|
                && (i != place.0 || t != place.1 - 1) ::
        old(Chains[i][t]) != old(Chains[place.0][place.1 - 1])
    {
      ghost var (key, j) := place;
      forall i, t | 0 <= i < tableSize && 0 <= t < |old(Chains[i])| && (i != key || t != j - 1)
        ensures old(Chains[i][t]) != old(Chains[key][j - 1])
      {
        assert old(Pos[Chains[i][t]]) == (i, t);
      }
    }

    twostate lemma UnlinkedLinked(place: (int, int))
      requires UnlinkStep(place) && old(Linked()) && Sized() && Placed()
      ensures Linked()
    {
      ghost var (key, j) := place;
      ghost var x := old(Chains[key][j - 1]);
      ghost var c := old(Chains[key]);
      RemovedAt(c, j);
      UnlinkedOthers(place);
      forall i, t | 0 <= i < tableSize && i != key && 0 <= t < |Chains[i]|
        ensures Chains[i][t].next == if t + 1 < |Chains[i]| then Chains[i][t + 1] else null
      {
        assert Chains[i] == old(Chains[i]);
        assert old(Chains[i][t].next) == if t + 1 < |Chains[i]| then Chains[i][t + 1] else null;
        assert KeptUnless(old(Chains[i][t]), x);
      }
      forall t | 0 <= t < j - 1
        ensures Chains[key][t].next == Chains[key][t + 1]
      {
        assert Chains[key][t] == c[t] && Chains[key][t + 1] == c[t + 1];
        assert old(Chains[key][t].next) == c[t + 1];
        assert KeptUnless(c[t], x);
      }
      forall t | j <= t < |c| - 1
        ensures Chains[key][t].next == if t + 1 < |c| - 1 then Chains[key][t + 1] else null
      {
        assert Chains[key][t] == c[t + 1];
        assert old(Chains[key][t + 1].next) == if t + 2 < |c| then c[t + 2] else null;
        assert KeptUnless(c[t + 1], x);
      }
    }

    twostate lemma UnlinkedStored(place: (int, int))
      requires UnlinkStep(place) && old(Stored()) && Sized() && Placed()
      ensures Stored()
    {
      ghost var (key, j) := place;
      ghost var x := old(Chains[key][j - 1]);
      ghost var c, bs := old(Chains[key]), old(Buckets[key]);
      RemovedAt(c, j);
      RemovedAt(bs, j);
      UnlinkedOthers(place);
      forall i | 0 <= i < tableSize
        ensures if nodes[i].key == UINT_MAX then |Chains[i]| == 1 && Buckets[i] == []
                else |Buckets[i]| == |Chains[i]|
      {
        assert nodes[i] == old(Chains[i][0]);
        assert KeptUnless(old(Chains[i][0]), x);
      }
      forall i, t | 0 <= i < tableSize && 0 <= t < |Buckets[i]|
        ensures t < |Chains[i]| && Chains[i][t].bid == Buckets[i][t] && Chains[i][t].key == i
      {
        if i != key {
          assert KeptUnless(old(Chains[i][t]), x);
        } else if t < j {
          assert KeptUnless(c[t], x);
        } else {
          assert KeptUnless(c[t + 1], x);
        }
      }
    }

    /** Unlinking keeps the table valid. */
    twostate lemma UnlinkedValid(place: (int, int))
      requires old(Valid()) && UnlinkStep(place)
      ensures Valid()
    {
      ghost var (key, j) := place;
      UnlinkedPlaced(place);
      UnlinkedLinked(place);
      UnlinkedStored(place);
      WellHashedRemoveAt(old(Buckets), tableSize, key, j);
    }

    /** Marking the slot of a chain that is the slot alone unused empties the
        bucket and keeps the table valid. */
    twostate lemma EmptiedValid(key: int)
      requires old(Valid())
      requires 0 <= key < tableSize && |old(Chains[key])| == 1 && old(nodes[key].key) != UINT_MAX
      requires unchanged(nodes) && Chains == old(Chains) && Pos == old(Pos) && Repr == old(Repr)
      requires Buckets == old(Buckets)[key := []]
      requires nodes[key].key == UINT_MAX && nodes[key].next == null
      requires forall i, t | 0 <= i < tableSize && 0 <= t < |old(Chains[i])| ::
        KeptUnless(old(Chains[i][t]), nodes[key])
      ensures Valid()
    {
      WellHashedRemoveAt(old(Buckets), tableSize, key, 0);
    }

    /** The step that copies the second node of chain `key` into its slot:
        the second place leaves the chain and the first bid leaves the
        bucket; no node other than the slot changes. */
    twostate predicate ShiftStep(key: int)
      reads this, nodes, Repr
    {
      && old(Sized() && Placed())
      && Repr == old(Repr)
      && 0 <= key < tableSize && 1 < |old(Chains[key])| && old(nodes[key].key) != UINT_MAX
      && |old(Buckets[key])| == |old(Chains[key])|
      && unchanged(nodes)
      && Chains == old(Chains)[key := old(Chains[key][..1] + Chains[key][2..])]
      && Pos == ShiftDown(old(Pos), key, 1)
      && Buckets == old(Buckets)[key := old(Buckets[key][1..])]
      && nodes[key].bid == old(Chains[key][1].bid) && nodes[key].key == old(Chains[key][1].key)
      && nodes[key].next == old(Chains[key][1].next)
      && forall i, t | 0 <= i < tableSize && 0 <= t < |old(Chains[i])| ::
           KeptUnless(old(Chains[i][t]), nodes[key])
    }

    twostate lemma ShiftedPlaced(key: int)
      requires old(Sized() && Placed()) && Repr == old(Repr) && unchanged(nodes)
      requires 0 <= key < tableSize && 1 < |old(Chains[key])|
      requires Chains == old(Chains)[key := old(Chains[key][..1] + Chains[key][2..])]
      requires Pos == ShiftDown(old(Pos), key, 1)
      requires |Buckets| == tableSize
      ensures Sized() && Placed()
    {
      ghost var c := old(Chains[key]);
      RemovedAt(c, 1);
      forall i, t | 0 <= i < tableSize && 0 <= t < |Chains[i]|
        ensures Chains[i][t] in Repr && Chains[i][t] in Pos && Pos[Chains[i][t]] == (i, t)
      {
        var t' := if i == key && t >= 1 then t + 1 else t;
        assert Chains[i][t] == old(Chains[i][t']);
        assert old(Pos)[Chains[i][t]] == (i, t');
        ShiftDownAt(old(Pos), key, 1, Chains[i][t]);
      }
    }

    /** Of the old nodes only the slot is at place 0 of chain `key`. */
    twostate lemma ShiftedOthers(key: int)
      requires ShiftStep(key)
      ensures forall i, t | 0 <= i < tableSize && 0 <= t < |old(Chains[i])| && (i != key || t != 0) ::
        old(Chains[i][t]) != nodes[key]
    {
      forall i, t | 0 <= i < tableSize && 0 <= t < |old(Chains[i])| && (i != key || t != 0)
        ensures old(Chains[i][t]) != nodes[key]
      {
        assert old(Pos[Chains[i][t]]) == (i, t);
      }
    }

    twostate lemma ShiftedLinked(key: int)
      requires ShiftStep(key) && old(Linked()) && Sized() && Placed()
      ensures Linked()
    {
      ghost var c := old(Chains[key]);
      RemovedAt(c, 1);
      ShiftedOthers(key);
      forall i, t | 0 <= i < tableSize && i != key && 0 <= t < |Chains[i]|
        ensures Chains[i][t].next == if t + 1 < |Chains[i]| then Chains[i][t + 1] else null
      {
        assert KeptUnless(old(Chains[i][t]), nodes[key]);
      }
      forall t | 1 <= t < |c| - 1
        ensures Chains[key][t].next == if t + 1 < |c| - 1 then Chains[key][t + 1] else null
      {
        assert KeptUnless(c[t + 1], nodes[key]);
      }
    }

    twostate lemma ShiftedStored(key: int)
      requires ShiftStep(key) && old(Stored()) && Sized() && Placed()
      ensures Stored()
    {
      ghost var c, bs := old(Chains[key]), old(Buckets[key]);
      RemovedAt(c, 1);
      ShiftedOthers(key);
      forall i | 0 <= i < tableSize
        ensures if nodes[i].key == UINT_MAX then |Chains[i]| == 1 && Buckets[i] == []
                else |Buckets[i]| == |Chains[i]|
      {
        if i != key {
          assert nodes[i] == old(Chains[i][0]);
          assert KeptUnless(old(Chains[i][0]), nodes[key]);
        }
      }
      forall i, t | 0 <= i < tableSize && 0 <= t < |Buckets[i]|
        ensures t < |Chains[i]| && Chains[i][t].bid == Buckets[i][t] && Chains[i][t].key == i
      {
        if i != key {
          assert KeptUnless(old(Chains[i][t]), nodes[key]);
        } else if 0 < t {
          assert KeptUnless(c[t + 1], nodes[key]);
        }
      }
    }

    /** Copying the second node into the slot keeps the table valid. */
    twostate lemma ShiftedValid(key: int)
      requires old(Valid()) && ShiftStep(key)
      ensures Valid()
    {
      ShiftedPlaced(key);
      ShiftedLinked(key);
      ShiftedStored(key);
      WellHashedRemoveAt(old(Buckets), tableSize, key, 0);
    }

    /** `node->next = new Node(bid, key)`: a new node holding `b` is linked
        after the last node `last` of the occupied chain `key`. */
    method Append(key: int, b: Bid, last: Node)
      requires Valid() && ValidId(b.bidId) && BucketOf(b.bidId, tableSize) == key
      requires 0 <= key < tableSize && nodes[key].key != UINT_MAX
      requires last == Chains[key][|Chains[key]| - 1]
      modifies this, last
      ensures Valid() && fresh(Repr - old(Repr))
      ensures Buckets == old(Buckets)[key := old(Buckets[key]) + [b]]
    {
      var n := new Node.WithKey(b, key);
      last.next := n;
      Pos := Pos[n := (key, |Chains[key]|)];
      Chains := Chains[key := Chains[key] + [n]];
      Buckets := Buckets[key := Buckets[key] + [b]];
      Repr := Repr + {n};
      AppendedValid(key);
    }

    /** `Insert`: fill the bucket's slot when it is empty, otherwise walk to
        the end of the chain and append a new node there. Duplicates are not
        checked for. */
    method Insert(bid: Bid)
      requires Valid() && ValidId(bid.bidId)
      modifies this, Repr
      ensures Valid() && fresh(Repr - old(Repr))
      ensures Buckets == old(Buckets)[BucketOf(bid.bidId, tableSize) :=
                                      old(Buckets)[BucketOf(bid.bidId, tableSize)] + [bid]]
    {
      var key := Hash(Stoi(bid.bidId), tableSize);
      var node := nodes[key];
      if node.key == UINT_MAX {
        // nodes[key] = Node(bid, key): the whole slot is overwritten, link included
        assert Buckets[key] == [];
        node.bid, node.key, node.next := bid, key, null;
        Buckets := Buckets[key := [bid]];
        FilledSlotValid(key);
        assert old(Buckets)[key] + [bid] == [bid];
      } else {
        ghost var j := 0;
        while node.next != null
          invariant 0 <= j < |Chains[key]| && node == Chains[key][j]
          decreases |Chains[key]| - j
        {
          node := node.next;
          j := j + 1;
        }
        Append(key, bid, node);
      }
    }

    /** `Search`: nothing when the slot is empty; otherwise the first bid of
        the slot and chain whose id equals `bidId`, or the default bid. */
    method Search(bidId: string) returns (b: Bid)
      requires Valid() && ValidId(bidId)
      ensures b == SearchResult(Buckets[BucketOf(bidId, tableSize)], bidId)
      ensures b.bidId == bidId <==>
        exists i, j :: 0 <= i < |Buckets| && 0 <= j < |Buckets[i]| && Buckets[i][j].bidId == bidId
    {
      var key := Hash(Stoi(bidId), tableSize);
      OnlyInItsBucket(Buckets, tableSize, bidId);
      var node: Node? := nodes[key];
      if node.key == UINT_MAX {
        return EmptyBid;
      }
      ghost var j := 0;
      while node != null
        invariant 0 <= j <= |Chains[key]|
        invariant node == (if j < |Chains[key]| then Chains[key][j] else null)
        invariant forall t | 0 <= t < j :: Buckets[key][t].bidId != bidId
        decreases |Chains[key]| - j
      {
        if node.bid.bidId == bidId {
          return node.bid;
        }
        node := node.next;
        j := j + 1;
      }
      return EmptyBid;
    }

    /** `prev->next = node->next`: the chain node at place `j` is
        unlinked from its predecessor `prev`. */
    method Unlink(key: int, ghost j: int, prev: Node, node: Node)
      requires Valid()
      requires 0 <= key < tableSize && 0 < j < |Chains[key]| && nodes[key].key != UINT_MAX
      requires prev == Chains[key][j - 1] && node == Chains[key][j]
      modifies this, prev
      ensures Valid() && Repr == old(Repr)
      ensures Buckets == old(Buckets)[key := old(Buckets[key][..j] + Buckets[key][j + 1..])]
    {
      prev.next := node.next;
      Chains := Chains[key := Chains[key][..j] + Chains[key][j + 1..]];
      Pos := ShiftDown(Pos, key, j);
      Buckets := Buckets[key := Buckets[key][..j] + Buckets[key][j + 1..]];
      UnlinkedValid((key, j));
    }

    /** `nodes[key].key = UINT_MAX`: the slot holding the only bid of its
        bucket is marked unused. */
    method ClearSlot(key: int)
      requires Valid()
      requires 0 <= key < tableSize && |Chains[key]| == 1 && nodes[key].key != UINT_MAX
      modifies this, nodes[key]
      ensures Valid() && Repr == old(Repr)
      ensures Buckets == old(Buckets)[key := []]
    {
      nodes[key].key := UINT_MAX;
      Buckets := Buckets[key := []];
      EmptiedValid(key);
    }

    /** `nodes[key] = *temp`: the second node of chain `key` is copied into
        the slot, which then links past it. */
    method PullUp(key: int)
      requires Valid()
      requires 0 <= key < tableSize && 1 < |Chains[key]| && nodes[key].key != UINT_MAX
      modifies this, nodes[key]
      ensures Valid() && Repr == old(Repr)
      ensures Buckets == old(Buckets)[key := old(Buckets[key][1..])]
    {
      var node := nodes[key];
      var temp := node.next;
      node.bid, node.key, node.next := temp.bid, temp.key, temp.next;
      Chains := Chains[key := Chains[key][..1] + Chains[key][2..]];
      Pos := ShiftDown(Pos, key, 1);
      Buckets := Buckets[key := Buckets[key][1..]];
      ShiftedValid(key);
    }

    /** `Remove`: walk the slot and chain; the first node whose id equals
        `bidId` is unlinked when it is in the chain, replaced by the next
        node when it is the slot and has a chain, and marked empty when it is
        the slot alone. The result says whether a bid was removed. */
    method Remove(bidId: string) returns (removed: bool)
      requires Valid() && ValidId(bidId)
      modifies this, Repr
      ensures Valid() && Repr == old(Repr)
      ensures removed == FirstIndex(old(Buckets)[BucketOf(bidId, tableSize)], bidId).Some?
      ensures Buckets == old(Buckets)[BucketOf(bidId, tableSize) :=
                                      RemoveFirst(old(Buckets)[BucketOf(bidId, tableSize)], bidId)]
    {
      var key := Hash(Stoi(bidId), tableSize);
      var node: Node? := nodes[key];
      var prev: Node? := null;
      ghost var j := 0;
      while node != null && node.key != UINT_MAX
        invariant 0 <= j <= |Chains[key]|
        invariant node == (if j < |Chains[key]| then Chains[key][j] else null)
        invariant prev == (if j == 0 then null else Chains[key][j - 1])
        invariant 0 < j ==> nodes[key].key != UINT_MAX
        invariant forall t | 0 <= t < j :: Buckets[key][t].bidId != bidId
        invariant unchanged(this, nodes) && unchanged(Repr)
        decreases |Chains[key]| - j
      {
        if node.bid.bidId == bidId {
          RemoveFirstAt(Buckets[key], bidId, j);
          if prev != null {
            Unlink(key, j, prev, node);
          } else if node.next == null {
            ClearSlot(key);
            assert old(Buckets)[key][..0] + old(Buckets)[key][1..] == [];
          } else {
            PullUp(key);
            assert old(Buckets)[key][..0] + old(Buckets)[key][1..] == old(Buckets)[key][1..];
          }
          return true;
        }
        prev := node;
        node := node.next;
        j := j + 1;
      }
      return false;
    }

    /** The inner loop of `PrintAll`: the bids of the occupied slot `i`
        and its chain, slot first. */
    method ChainBids(i: int) returns (out: seq<Bid>)
      requires Valid() && 0 <= i < tableSize && nodes[i].key != UINT_MAX
      ensures out == Buckets[i]
    {
      var node := nodes[i];
      out := [node.bid];
      ghost var j := 0;
      while node.next != null
        invariant 0 <= j < |Chains[i]| && node == Chains[i][j]
        invariant out == Buckets[i][..j + 1]
        decreases |Chains[i]| - j
      {
        node := node.next;
        j := j + 1;
        out := out + [node.bid];
      }
      assert Buckets[i][..j + 1] == Buckets[i];
    }

    /** `PrintAll`: the bids of every occupied slot and its chain, buckets in
        index order, slot before chain. */
    method PrintAll() returns (out: seq<Bid>)
      requires Valid()
      ensures out == Flatten(Buckets)
    {
      out := [];
      var i := 0;
      while i < tableSize
        invariant 0 <= i <= tableSize
        invariant out == Flatten(Buckets[..i])
      {
        FlattenStep(Buckets, i);
        if nodes[i].key != UINT_MAX {
          var bids := ChainBids(i);
          out := out + bids;
        }
        i := i + 1;
      }
      assert Buckets[..tableSize] == Buckets;
    }
  }
}

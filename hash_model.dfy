/**
 * The value-level part of the chaining hash table: the key conversion
 * (`stoi` and the cast to `unsigned int`), the bucket index, and the
 * functions on bucket contents that the table's operations are proved
 * against (first match, removal of the first match, and the listing of all
 * buckets in index order).
 */
module HashModel {
  import opened BidRecord

  /** `UINT_MAX` of a 32-bit `unsigned int`: the key of an empty slot. */
  const UINT_MAX: int := 0xFFFF_FFFF

  /** The range of a 32-bit `int`, the result type of `stoi`. */
  const INT_MIN: int := -0x8000_0000
  const INT_MAX: int := 0x7FFF_FFFF

  /** `DEFAULT_SIZE`: the number of slots of a default-constructed table. */
  const DEFAULT_SIZE: int := 179

  /** The values of a 32-bit `unsigned int`. */
  type uint32 = x: int | 0 <= x <= UINT_MAX

  // ---------------------------------------------------------------------------
  // Keys
  // ---------------------------------------------------------------------------

  predicate IsDigit(c: char)
  {
    '0' <= c <= '9'
  }

  predicate AllDigits(s: string)
  {
    forall i | 0 <= i < |s| :: IsDigit(s[i])
  }

  /** The number a string of decimal digits denotes. */
  function DecimalValue(s: string): nat
    requires AllDigits(s)
  {
    if |s| == 0 then 0
    else DecimalValue(s[..|s| - 1]) * 10 + (s[|s| - 1] as int - '0' as int)
  }

  /** A subset of the ids `stoi` accepts: non-empty, decimal digits only, and
      no larger than `INT_MAX`. */
  predicate ValidId(s: string)
  {
    0 < |s| && AllDigits(s) && DecimalValue(s) <= INT_MAX
  }

  /** `stoi` on a valid id. */
  function Stoi(s: string): (n: int)
    requires ValidId(s)
    ensures 0 <= n <= INT_MAX
  {
    DecimalValue(s)
  }

  function DigitChar(d: nat): (c: char)
    requires d < 10
    ensures IsDigit(c) && c as int - '0' as int == d
  {
    ('0' as int + d) as char
  }

  /** The decimal digits of `n`, without leading zeros: a reference for `Stoi`. */
  function DecimalString(n: nat): (s: string)
    ensures 0 < |s| && AllDigits(s)
  {
    if n < 10 then [DigitChar(n)] else DecimalString(n / 10) + [DigitChar(n % 10)]
  }

  /** `Stoi` reads back every number written in decimal. */
  lemma {:induction false} StoiDecimalString(n: nat)
    requires n <= INT_MAX
    ensures ValidId(DecimalString(n)) && Stoi(DecimalString(n)) == n
  {
    DecimalValueOfString(n);
  }

  lemma {:induction false} DecimalValueOfString(n: nat)
    ensures DecimalValue(DecimalString(n)) == n
  {
    var s := DecimalString(n);
    if n >= 10 {
      DecimalValueOfString(n / 10);
      assert s[..|s| - 1] == DecimalString(n / 10);
    }
  }

  /** `static_cast<unsigned int>` of an `int`: the value modulo 2^32. */
  function ToUnsigned(key: int): (u: int)
    requires INT_MIN <= key <= INT_MAX
    ensures 0 <= u <= UINT_MAX
    ensures u % 0x1_0000_0000 == key % 0x1_0000_0000
    ensures 0 <= key ==> u == key
  {
    if key < 0 then key + 0x1_0000_0000 else key
  }

  /** `hash`: the key cast to `unsigned int`, reduced modulo the table size. */
  function Hash(key: int, tableSize: int): (h: int)
    requires INT_MIN <= key <= INT_MAX
    requires 0 < tableSize <= UINT_MAX
    ensures 0 <= h < tableSize
  {
    ToUnsigned(key) % tableSize
  }

  /** The bucket a bid with id `id` is filed under. */
  function BucketOf(id: string, tableSize: int): (k: int)
    requires ValidId(id) && 0 < tableSize <= UINT_MAX
    ensures 0 <= k < tableSize
  {
    Hash(Stoi(id), tableSize)
  }

  /** For a valid id the cast never wraps: the bucket is the id's decimal
      value modulo the table size, and so it is never the empty-slot key. */
  lemma BucketOfDecimal(id: string, tableSize: int)
    requires ValidId(id) && 0 < tableSize <= UINT_MAX
    ensures BucketOf(id, tableSize) == DecimalValue(id) % tableSize
    ensures BucketOf(id, tableSize) != UINT_MAX
  {
  }

  /** Every bid of bucket `i` has a valid id that hashes to `i`. */
  ghost predicate WellHashed(B: seq<seq<Bid>>, tableSize: int)
  {
    && 0 < tableSize <= UINT_MAX
    && |B| == tableSize
    && forall i, j | 0 <= i < |B| && 0 <= j < |B[i]| ::
         ValidId(B[i][j].bidId) && BucketOf(B[i][j].bidId, tableSize) == i
  }

  /** In a well-hashed table a bid with a given id can only be in that id's bucket. */
  lemma OnlyInItsBucket(B: seq<seq<Bid>>, tableSize: int, id: string)
    requires WellHashed(B, tableSize) && ValidId(id)
    ensures (exists i, j :: 0 <= i < |B| && 0 <= j < |B[i]| && B[i][j].bidId == id)
        <==> (exists j :: 0 <= j < |B[BucketOf(id, tableSize)]| && B[BucketOf(id, tableSize)][j].bidId == id)
  {
  }

  // ---------------------------------------------------------------------------
  // One bucket
  // ---------------------------------------------------------------------------

  /** The position of the first bid with id `id`, if any. */
  function FirstIndex(s: seq<Bid>, id: string): (r: Option<nat>)
    ensures r.Some? ==> r.value < |s| && s[r.value].bidId == id
    ensures r.Some? ==> forall j | 0 <= j < r.value :: s[j].bidId != id
    ensures r.None? ==> forall j | 0 <= j < |s| :: s[j].bidId != id
  {
    if |s| == 0 then None
    else if s[0].bidId == id then Some(0)
    else match FirstIndex(s[1..], id)
      case None => None
      case Some(k) => Some(k + 1)
  }

  /** What `Search` returns for a bucket: its first bid with id `id`, or the
      default bid when there is none. */
  function SearchResult(s: seq<Bid>, id: string): (b: Bid)
    ensures b.bidId == id || (b == EmptyBid && forall j | 0 <= j < |s| :: s[j].bidId != id)
    ensures 0 < |id| ==> (b.bidId == id <==> exists j :: 0 <= j < |s| && s[j].bidId == id)
  {
    match FirstIndex(s, id)
    case Some(i) => s[i]
    case None => EmptyBid
  }

  /** A bucket with its first bid with id `id` taken out, the rest in order. */
  function RemoveFirst(s: seq<Bid>, id: string): seq<Bid>
  {
    match FirstIndex(s, id)
    case Some(i) => s[..i] + s[i + 1..]
    case None => s
  }

  /** The first match is the place `j` when `s[j]` matches and nothing
      before it does; removal then cuts out exactly that place. */
  lemma RemoveFirstAt(s: seq<Bid>, id: string, j: int)
    requires 0 <= j < |s| && s[j].bidId == id
    requires forall t | 0 <= t < j :: s[t].bidId != id
    ensures FirstIndex(s, id) == Some(j)
    ensures RemoveFirst(s, id) == s[..j] + s[j + 1..]
  {
  }

  /** Removal takes out exactly the first match and nothing when there is none. */
  lemma RemoveFirstElems(s: seq<Bid>, id: string)
    ensures FirstIndex(s, id).None? ==> multiset(RemoveFirst(s, id)) == multiset(s)
    ensures FirstIndex(s, id).Some? ==>
      multiset(RemoveFirst(s, id)) == multiset(s) - multiset{s[FirstIndex(s, id).value]}
  {
    if FirstIndex(s, id).Some? {
      var i := FirstIndex(s, id).value;
      assert s == s[..i] + [s[i]] + s[i + 1..];
    }
  }

  /** A bid appended to a bucket is found by its id unless an earlier bid has
      the same id, and searches for other ids are unaffected. */
  lemma FirstIndexAppend(s: seq<Bid>, b: Bid, id: string)
    ensures FirstIndex(s + [b], id) ==
      if FirstIndex(s, id).Some? then FirstIndex(s, id)
      else if b.bidId == id then Some(|s|)
      else None
  {
    var t := s + [b];
    if FirstIndex(s, id).None? && b.bidId == id {
      assert t[|s|] == b;
    } else if FirstIndex(s, id).None? {
      assert forall j | 0 <= j < |t| :: t[j].bidId != id by {
        forall j | 0 <= j < |t| ensures t[j].bidId != id {
          if j < |s| { assert t[j] == s[j]; }
        }
      }
    } else {
      var i := FirstIndex(s, id).value;
      assert t[i] == s[i];
      assert forall j | 0 <= j < i :: t[j] == s[j];
    }
  }

  /** Appending a bid and then removing its id, when no earlier bid has it,
      gives back the bucket. */
  lemma RemoveFirstAppend(s: seq<Bid>, b: Bid)
    requires FirstIndex(s, b.bidId).None?
    ensures RemoveFirst(s + [b], b.bidId) == s
  {
    FirstIndexAppend(s, b, b.bidId);
    assert (s + [b])[..|s|] == s;
  }

  /** After an append, Search finds a bid with the appended id, and searches
      for other ids return what they returned before. */
  lemma SearchAfterAppend(s: seq<Bid>, b: Bid, id: string)
    ensures SearchResult(s + [b], b.bidId).bidId == b.bidId
    ensures id != b.bidId ==> SearchResult(s + [b], id) == SearchResult(s, id)
  {
    FirstIndexAppend(s, b, b.bidId);
    FirstIndexAppend(s, b, id);
    if FirstIndex(s, id).Some? {
      assert (s + [b])[FirstIndex(s, id).value] == s[FirstIndex(s, id).value];
    }
  }

  /** When the bucket holds no second bid with id `id`, Search no longer finds
      `id` after the removal. */
  lemma SearchAfterRemoveFirst(s: seq<Bid>, id: string)
    requires FirstIndex(s, id).Some? ==>
      forall j | FirstIndex(s, id).value < j < |s| :: s[j].bidId != id
    ensures SearchResult(RemoveFirst(s, id), id) == EmptyBid
  {
    if FirstIndex(s, id).Some? {
      var i := FirstIndex(s, id).value;
      var r := s[..i] + s[i + 1..];
      RemovedAt(s, i);
      forall j | 0 <= j < |r| ensures r[j].bidId != id {
        if j < i { assert r[j] == s[j]; } else { assert r[j] == s[j + 1]; }
      }
    }
  }

  /** Removing the first bid with id `id` leaves the result of every search
      for another id as it was. */
  lemma RemoveFirstKeepsOthers(s: seq<Bid>, id: string, other: string)
    requires other != id
    ensures SearchResult(RemoveFirst(s, id), other) == SearchResult(s, other)
  {
    if FirstIndex(s, id).Some? {
      var i := FirstIndex(s, id).value;
      var r := s[..i] + s[i + 1..];
      RemovedAt(s, i);
      match FirstIndex(s, other)
      case None =>
        forall j | 0 <= j < |r| ensures r[j].bidId != other {
          if j < i { assert r[j] == s[j]; } else { assert r[j] == s[j + 1]; }
        }
      case Some(k) =>
        var k' := if k < i then k else k - 1;
        assert r[k'] == s[k];
        forall j | 0 <= j < k' ensures r[j].bidId != other {
          if j < i { assert r[j] == s[j]; } else { assert r[j] == s[j + 1]; }
        }
        RemoveFirstAt(r, other, k');
    }
  }

  // ---------------------------------------------------------------------------
  // All buckets
  // ---------------------------------------------------------------------------

  /** The buckets' bids one after the other, in bucket index order. */
  function Flatten(B: seq<seq<Bid>>): seq<Bid>
  {
    if |B| == 0 then [] else Flatten(B[..|B| - 1]) + B[|B| - 1]
  }

  lemma FlattenStep(B: seq<seq<Bid>>, i: int)
    requires 0 <= i < |B|
    ensures Flatten(B[..i + 1]) == Flatten(B[..i]) + B[i]
  {
    assert B[..i + 1][..i] == B[..i];
  }

  /** Replacing one bucket replaces its bids in the listing and nothing else. */
  lemma {:induction false} FlattenUpdate(B: seq<seq<Bid>>, k: int, s: seq<Bid>)
    requires 0 <= k < |B|
    ensures multiset(Flatten(B[k := s])) == multiset(Flatten(B)) - multiset(B[k]) + multiset(s)
  {
    var n := |B| - 1;
    var C := B[k := s];
    if k == n {
      assert C[..n] == B[..n];
    } else {
      assert C[..n] == B[..n][k := s];
      FlattenUpdate(B[..n], k, s);
      FlattenElems(B[..n], k);
    }
  }

  /** Each bucket's bids appear in the listing. */
  lemma {:induction false} FlattenElems(B: seq<seq<Bid>>, k: int)
    requires 0 <= k < |B|
    ensures multiset(B[k]) <= multiset(Flatten(B))
  {
    var n := |B| - 1;
    if k < n {
      assert B[..n][k] == B[k];
      FlattenElems(B[..n], k);
    }
  }

  /** A bid is listed exactly when it is in some bucket. */
  lemma {:induction false} FlattenMembers(B: seq<seq<Bid>>, x: Bid)
    ensures x in Flatten(B) <==> exists i :: 0 <= i < |B| && x in B[i]
  {
    if |B| > 0 {
      var n := |B| - 1;
      FlattenMembers(B[..n], x);
      if x in Flatten(B[..n]) {
        var i :| 0 <= i < n && x in B[..n][i];
        assert x in B[i];
      }
      if i :| 0 <= i < |B| && x in B[i] {
        if i < n {
          assert x in B[..n][i];
        }
      }
    }
  }

  /** Insert adds exactly the inserted bid to the listing. */
  lemma InsertListing(B: seq<seq<Bid>>, k: int, b: Bid)
    requires 0 <= k < |B|
    ensures multiset(Flatten(B[k := B[k] + [b]])) == multiset(Flatten(B)) + multiset{b}
  {
    FlattenUpdate(B, k, B[k] + [b]);
    FlattenElems(B, k);
  }

  /** Remove takes exactly the bid Search would return out of the listing. */
  lemma RemoveListing(B: seq<seq<Bid>>, k: int, id: string)
    requires 0 <= k < |B|
    ensures FirstIndex(B[k], id).None? ==> B[k := RemoveFirst(B[k], id)] == B
    ensures FirstIndex(B[k], id).Some? ==>
      multiset(Flatten(B[k := RemoveFirst(B[k], id)])) == multiset(Flatten(B)) - multiset{SearchResult(B[k], id)}
  {
    if FirstIndex(B[k], id).Some? {
      var x := B[k][FirstIndex(B[k], id).value];
      RemoveFirstElems(B[k], id);
      FlattenUpdate(B, k, RemoveFirst(B[k], id));
      FlattenElems(B, k);
      SwapOut(multiset(Flatten(B)), multiset(B[k]), x);
    }
  }

  /** Where each element of a sequence goes when the one at `j` is taken out. */
  lemma RemovedAt<T>(s: seq<T>, j: int)
    requires 0 <= j < |s|
    ensures |s[..j] + s[j + 1..]| == |s| - 1
    ensures forall t | 0 <= t < j :: (s[..j] + s[j + 1..])[t] == s[t]
    ensures forall t | j < t < |s| :: (s[..j] + s[j + 1..])[t - 1] == s[t]
  {
  }

  lemma SwapOut<T>(M: multiset<T>, A: multiset<T>, x: T)
    requires A <= M && x in A
    ensures M - A + (A - multiset{x}) == M - multiset{x}
  {
  }

  /** Appending a bid that hashes to `k` to bucket `k` keeps the buckets well hashed. */
  lemma WellHashedAppend(B: seq<seq<Bid>>, tableSize: int, k: int, b: Bid)
    requires WellHashed(B, tableSize) && 0 <= k < |B|
    requires ValidId(b.bidId) && BucketOf(b.bidId, tableSize) == k
    ensures WellHashed(B[k := B[k] + [b]], tableSize)
  {
  }

  /** Removing one bid from a bucket keeps the buckets well hashed. */
  lemma WellHashedRemoveAt(B: seq<seq<Bid>>, tableSize: int, k: int, j: int)
    requires WellHashed(B, tableSize) && 0 <= k < |B| && 0 <= j < |B[k]|
    ensures WellHashed(B[k := B[k][..j] + B[k][j + 1..]], tableSize)
  {
    var C: seq<seq<Bid>> := B[k := B[k][..j] + B[k][j + 1..]];
    forall i, t | 0 <= i < |C| && 0 <= t < |C[i]|
      ensures ValidId(C[i][t].bidId) && BucketOf(C[i][t].bidId, tableSize) == i
    {
      if i == k {
        if t < j { assert C[i][t] == B[k][t]; } else { assert C[i][t] == B[k][t + 1]; }
      }
    }
  }
}

/**
 * Facts about the stored records that the registry's operations rely on:
 * finding a record by id, writing a record back with new attributes, and what
 * renumbering every record by its place in the ordered view does to that view.
 */
module TermStore {
  import opened Wrappers
  import opened Codec
  import opened MetadataTerm
  import opened TermOrdering

  /** No two stored records share an id. */
  ghost predicate StoreIdsDistinct(store: seq<RawTerm>) {
    forall i, j :: 0 <= i < j < |store| ==> store[i].termId != store[j].termId
  }

  /** No two terms of a list share an id. */
  ghost predicate IdsDistinct(ts: seq<Term>) {
    forall i, j :: 0 <= i < j < |ts| ==> ts[i].termId != ts[j].termId
  }

  /** The index of the first stored record with id `id`, or `|store|` when there is none. */
  function IdIndex(store: seq<RawTerm>, id: nat): (k: nat)
    ensures k <= |store|
    ensures k < |store| ==> store[k].termId == id
    ensures forall j :: 0 <= j < k ==> store[j].termId != id
    decreases |store|
  {
    if store == [] then 0
    else if store[0].termId == id then 0
    else 1 + IdIndex(store[1..], id)
  }

  predicate HasId(store: seq<RawTerm>, id: nat) {
    IdIndex(store, id) < |store|
  }

  /** With distinct ids, the index of a stored record's id is that record's index. */
  lemma IdIndexOfStored(store: seq<RawTerm>, j: nat)
    requires j < |store| && StoreIdsDistinct(store)
    ensures IdIndex(store, store[j].termId) == j
  {
  }

  /** The ordered view of the stored records. */
  ghost function ViewOf(store: seq<RawTerm>): seq<Term> {
    OrderedView(DecorateAll(store))
  }

  // ---------------------------------------------------------------------------
  // Distinct ids survive the ordering

  /** A list with the entry at `p` dropped. */
  function DropAt(b: seq<Term>, p: nat): (r: seq<Term>)
    requires p < |b|
    ensures |r| == |b| - 1
    ensures forall q :: 0 <= q < |r| ==> r[q] == b[if q < p then q else q + 1]
    ensures multiset(r) == multiset(b) - multiset{b[p]}
  {
    assert b == b[..p] + [b[p]] + b[p + 1..];
    b[..p] + b[p + 1..]
  }

  /** Dropping an entry keeps the others' ids distinct. */
  lemma DropAtKeepsIdsDistinct(b: seq<Term>, p: nat)
    requires p < |b| && IdsDistinct(b)
    ensures IdsDistinct(DropAt(b, p))
    ensures forall q :: 0 <= q < |DropAt(b, p)| ==> DropAt(b, p)[q].termId != b[p].termId
  {
  }

  /** What is left after dropping entry `p` carries none of its id. */
  lemma DroppedIdGone(b: seq<Term>, p: nat, y: Term)
    requires p < |b| && IdsDistinct(b)
    requires y in multiset(DropAt(b, p))
    ensures y.termId != b[p].termId
  {
    DropAtKeepsIdsDistinct(b, p);
    assert y in DropAt(b, p);
  }

  /** A permutation of a list with distinct ids has distinct ids. */
  lemma {:induction false} IdsDistinctPermutation(a: seq<Term>, b: seq<Term>)
    requires multiset(a) == multiset(b)
    requires IdsDistinct(b)
    ensures IdsDistinct(a)
    decreases |a|
  {
    if a != [] {
      var n := |a| - 1;
      var x := a[n];
      var a' := a[..n];
      assert a == a' + [x];
      assert x in multiset(b);
      var p :| 0 <= p < |b| && b[p] == x;
      var b' := DropAt(b, p);
      DropAtKeepsIdsDistinct(b, p);
      calc {
        multiset(b');
        multiset(b) - multiset{x};
        multiset(a' + [x]) - multiset{x};
        multiset(a') + multiset{x} - multiset{x};
        multiset(a');
      }
      IdsDistinctPermutation(a', b');
      forall i | 0 <= i < n
        ensures a'[i].termId != x.termId
      {
        assert a'[i] in multiset(a');
        DroppedIdGone(b, p, a'[i]);
      }
      SnocIdsDistinct(a', x);
    }
  }

  /** Appending a term whose id is new keeps the ids distinct. */
  lemma SnocIdsDistinct(a: seq<Term>, x: Term)
    requires IdsDistinct(a)
    requires forall i :: 0 <= i < |a| ==> a[i].termId != x.termId
    ensures IdsDistinct(a + [x])
  {
    var c := a + [x];
    forall i, j | 0 <= i < j < |c|
      ensures c[i].termId != c[j].termId
    {
      assert c[i] == a[i];
      if j < |a| {
        assert c[j] == a[j];
      }
    }
  }

  /** The ordered view of records with distinct ids has distinct ids. */
  lemma ViewIdsDistinct(store: seq<RawTerm>)
    requires StoreIdsDistinct(store)
    ensures IdsDistinct(ViewOf(store))
  {
    OrderedViewSpec(DecorateAll(store));
    IdsDistinctPermutation(ViewOf(store), DecorateAll(store));
  }

  /** Every entry of the ordered view is the decoding of some stored record. */
  lemma ViewEntryIsStored(store: seq<RawTerm>, k: nat) returns (j: nat)
    requires k < |ViewOf(store)|
    ensures j < |store| && Decorate(store[j]) == ViewOf(store)[k]
  {
    OrderedViewSpec(DecorateAll(store));
    assert ViewOf(store)[k] in multiset(DecorateAll(store));
    j :| 0 <= j < |store| && DecorateAll(store)[j] == ViewOf(store)[k];
  }

  /** The place of stored record `j` in the ordered view. */
  lemma StoredIsInView(store: seq<RawTerm>, j: nat)
    requires j < |store|
    ensures exists k :: 0 <= k < |ViewOf(store)| && ViewOf(store)[k] == Decorate(store[j])
  {
    OrderedViewSpec(DecorateAll(store));
    assert DecorateAll(store)[j] in multiset(ViewOf(store));
  }

  /**
   * Looking up a stored record's id in the ordered view finds that record,
   * decoded, at the first view index carrying that id.
   */
  lemma ViewFindsStored(store: seq<RawTerm>, j: nat)
    requires j < |store| && StoreIdsDistinct(store)
    ensures FindBy(ViewOf(store), "id", IntVal(store[j].termId)) == Some(Decorate(store[j]))
    ensures MatchIndex(ViewOf(store), "id", IntVal(store[j].termId)) < |ViewOf(store)|
    ensures ViewOf(store)[MatchIndex(ViewOf(store), "id", IntVal(store[j].termId))] == Decorate(store[j])
  {
    var v := ViewOf(store);
    ViewIdsDistinct(store);
    StoredIsInView(store, j);
    var k :| 0 <= k < |v| && v[k] == Decorate(store[j]);
    FindById(v, k);
    var m := MatchIndex(v, "id", IntVal(store[j].termId));
    assert m <= k by {
      assert Matches(v[k], "id", IntVal(store[j].termId));
    }
    assert v[m].termId == v[k].termId;
  }

  /** Looking up an id no stored record carries finds nothing. */
  lemma ViewMissesAbsent(store: seq<RawTerm>, id: nat)
    requires forall j :: 0 <= j < |store| ==> store[j].termId != id
    ensures FindBy(ViewOf(store), "id", IntVal(id)) == None
  {
    var v := ViewOf(store);
    OrderedViewSpec(DecorateAll(store));
    forall k | 0 <= k < |v|
      ensures !Matches(v[k], "id", IntVal(id))
    {
      var _ := ViewEntryIsStored(store, k);
    }
  }

  // ---------------------------------------------------------------------------
  // Writing a record back

  /** The record an update writes for term `t`, under slug `slug`: every attribute packed, `meta_key` included. */
  function WriteBack(t: Term, slug: string): (raw: RawTerm)
    ensures raw.termId == t.termId && raw.name == t.name && raw.slug == slug
    ensures Decorate(raw) == t.(slug := slug)
  {
    DecorateAttrsOf(t.(slug := slug));
    RawTerm(t.termId, t.name, slug, Encode(AttrsOf(t)))
  }

  /** A record moved to position `p` (an update that supplies only the position). */
  function Moved(raw: RawTerm, p: int): (r: RawTerm)
    ensures r.termId == raw.termId && r.name == raw.name && r.slug == raw.slug
    ensures Decorate(r) == Merge(Decorate(raw), PositionArgs(p))
  {
    var t := Merge(Decorate(raw), PositionArgs(p));
    WriteBack(t, t.slug)
  }

  /** The store without its record at index `j`. */
  function Remove(store: seq<RawTerm>, j: nat): (r: seq<RawTerm>)
    requires j < |store|
    ensures |r| == |store| - 1
    ensures forall i :: 0 <= i < |r| ==> r[i] == if i < j then store[i] else store[i + 1]
  {
    store[..j] + store[j + 1..]
  }

  /** Removing a record keeps the others' ids distinct. */
  lemma RemoveKeepsIdsDistinct(store: seq<RawTerm>, j: nat)
    requires j < |store| && StoreIdsDistinct(store)
    ensures StoreIdsDistinct(Remove(store, j))
  {
    var r := Remove(store, j);
    forall a, b | 0 <= a < b < |r|
      ensures r[a].termId != r[b].termId
    {
      var a0 := if a < j then a else a + 1;
      var b0 := if b < j then b else b + 1;
      assert r[a] == store[a0] && r[b] == store[b0];
    }
  }

  // ---------------------------------------------------------------------------
  // Renumbering

  /** The place in the ordered view of the record with id `id`. */
  ghost function Rank(store: seq<RawTerm>, id: nat): nat {
    MatchIndex(ViewOf(store), "id", IntVal(id))
  }

  /**
   * The renumbering loop, after its first `k` steps: each record whose place in
   * the ordered view is below `k` has been moved to position place + 1.
   */
  ghost function RenumberedUpTo(store: seq<RawTerm>, k: nat): (r: seq<RawTerm>)
    ensures |r| == |store|
  {
    seq(|store|, j requires 0 <= j < |store| =>
      if Rank(store, store[j].termId) < k then Moved(store[j], Rank(store, store[j].termId) + 1) else store[j])
  }

  /** The ordered view `v` with entry `k` moved to position `k + 1`. */
  function Renumbered(v: seq<Term>): (r: seq<Term>)
    ensures |r| == |v|
    ensures forall k :: 0 <= k < |v| ==> r[k] == Merge(v[k], PositionArgs(k + 1))
  {
    seq(|v|, k requires 0 <= k < |v| => Merge(v[k], PositionArgs(k + 1)))
  }

  /** Terms whose positions are all truthy and pairwise distinct all keep a slot: none is held back. */
  lemma {:induction false} DistinctPositionsNoneHeld(ts: seq<Term>)
    requires forall i :: 0 <= i < |ts| ==> Truthy(ts[i].position)
    requires forall i, j :: 0 <= i < j < |ts| ==> ts[i].position != ts[j].position
    ensures Held(ts) == []
    decreases |ts|
  {
    if ts != [] {
      var n := |ts| - 1;
      assert IsFirst(ts, n);
      DistinctPositionsNoneHeld(ts[..n]);
    }
  }

  lemma {:induction false} AscendingLowerBound(v: seq<Term>, k: nat)
    requires k < |v|
    requires forall i :: 0 <= i < |v| ==> 1 <= PositionNumber(v[i].position)
    requires forall i, j :: 0 <= i < j < |v| ==> PositionNumber(v[i].position) < PositionNumber(v[j].position)
    ensures k + 1 <= PositionNumber(v[k].position)
    decreases k
  {
    if k > 0 {
      AscendingLowerBound(v, k - 1);
    }
  }

  lemma {:induction false} AscendingUpperBound(v: seq<Term>, k: nat)
    requires k < |v|
    requires forall i :: 0 <= i < |v| ==> PositionNumber(v[i].position) <= |v|
    requires forall i, j :: 0 <= i < j < |v| ==> PositionNumber(v[i].position) < PositionNumber(v[j].position)
    ensures PositionNumber(v[k].position) <= k + 1
    decreases |v| - k
  {
    if k + 1 < |v| {
      AscendingUpperBound(v, k + 1);
    }
  }

  /** Strictly ascending positions drawn from `1..|v|` are exactly `1, 2, …, |v|`. */
  lemma AscendingIsExact(v: seq<Term>)
    requires forall i :: 0 <= i < |v| ==> 1 <= PositionNumber(v[i].position) <= |v|
    requires forall i, j :: 0 <= i < j < |v| ==> PositionNumber(v[i].position) < PositionNumber(v[j].position)
    ensures forall k :: 0 <= k < |v| ==> PositionNumber(v[k].position) == k + 1
  {
    forall k | 0 <= k < |v|
      ensures PositionNumber(v[k].position) == k + 1
    {
      AscendingLowerBound(v, k);
      AscendingUpperBound(v, k);
    }
  }

  /** Each record's rank is a valid view index holding that record, and ranks are distinct. */
  lemma RankFacts(store: seq<RawTerm>)
    requires StoreIdsDistinct(store)
    ensures |ViewOf(store)| == |store|
    ensures forall j :: 0 <= j < |store| ==>
              Rank(store, store[j].termId) < |store| && ViewOf(store)[Rank(store, store[j].termId)] == Decorate(store[j])
    ensures forall i, j :: 0 <= i < j < |store| ==> Rank(store, store[i].termId) != Rank(store, store[j].termId)
  {
    OrderedViewSpec(DecorateAll(store));
    forall j | 0 <= j < |store|
      ensures Rank(store, store[j].termId) < |store| && ViewOf(store)[Rank(store, store[j].termId)] == Decorate(store[j])
    {
      ViewFindsStored(store, j);
    }
  }

  /** The ordered view has one entry per stored record. */
  lemma ViewLength(store: seq<RawTerm>)
    ensures |ViewOf(store)| == |store|
  {
    OrderedViewSpec(DecorateAll(store));
  }

  /** After the whole renumbering, record `j` decodes to the entry of the renumbered view at its rank. */
  lemma RenumberedAt(store: seq<RawTerm>, j: nat)
    requires StoreIdsDistinct(store) && j < |store|
    ensures |ViewOf(store)| == |store|
    ensures Rank(store, store[j].termId) < |store|
    ensures DecorateAll(RenumberedUpTo(store, |store|))[j] == Renumbered(ViewOf(store))[Rank(store, store[j].termId)]
    ensures DecorateAll(RenumberedUpTo(store, |store|))[j].position == At(Rank(store, store[j].termId) + 1)
  {
    ViewLength(store);
    ViewFindsStored(store, j);
    var r := Rank(store, store[j].termId);
    var s2 := RenumberedUpTo(store, |store|);
    assert s2[j] == Moved(store[j], r + 1);
  }

  /** After the whole renumbering, no two records share a position. */
  lemma RenumberedPositionsDistinct(store: seq<RawTerm>)
    requires StoreIdsDistinct(store)
    ensures forall i, j :: 0 <= i < j < |store| ==>
              DecorateAll(RenumberedUpTo(store, |store|))[i].position != DecorateAll(RenumberedUpTo(store, |store|))[j].position
  {
    var ts := DecorateAll(RenumberedUpTo(store, |store|));
    forall i, j | 0 <= i < j < |store|
      ensures ts[i].position != ts[j].position
    {
      RenumberedAt(store, i);
      RenumberedAt(store, j);
      ViewFindsStored(store, i);
      ViewFindsStored(store, j);
    }
  }

  /** After the whole renumbering every record keeps a slot, so the view is sorted by position throughout. */
  lemma RenumberedAllPlaced(store: seq<RawTerm>)
    requires StoreIdsDistinct(store)
    ensures |ViewOf(RenumberedUpTo(store, |store|))| == |store|
    ensures forall i, j :: 0 <= i < j < |store| ==>
              PositionNumber(ViewOf(RenumberedUpTo(store, |store|))[i].position) <
              PositionNumber(ViewOf(RenumberedUpTo(store, |store|))[j].position)
  {
    var n := |store|;
    var ts := DecorateAll(RenumberedUpTo(store, n));
    forall j | 0 <= j < n
      ensures Truthy(ts[j].position)
    {
      RenumberedAt(store, j);
    }
    RenumberedPositionsDistinct(store);
    DistinctPositionsNoneHeld(ts);
    OrderedViewSpec(ts);
    assert NumPlaced(ts) == n by {
      assert OrderedView(ts)[NumPlaced(ts)..] == [];
    }
  }

  /** After the whole renumbering, view entry `k` is the record of rank `k`, at position `k + 1`. */
  lemma RenumberedViewEntry(store: seq<RawTerm>, k: nat)
    requires StoreIdsDistinct(store) && k < |store|
    ensures |ViewOf(store)| == |store|
    ensures |ViewOf(RenumberedUpTo(store, |store|))| == |store|
    ensures PositionNumber(ViewOf(RenumberedUpTo(store, |store|))[k].position) == k + 1 ==>
              ViewOf(RenumberedUpTo(store, |store|))[k] == Renumbered(ViewOf(store))[k]
    ensures 1 <= PositionNumber(ViewOf(RenumberedUpTo(store, |store|))[k].position) <= |store|
  {
    var s2 := RenumberedUpTo(store, |store|);
    ViewLength(store);
    ViewLength(s2);
    var j := ViewEntryIsStored(s2, k);
    RenumberedAt(store, j);
    var r := Rank(store, store[j].termId);
    var t := ViewOf(s2)[k];
    assert t == DecorateAll(s2)[j];
    assert t == Renumbered(ViewOf(store))[r];
    assert PositionNumber(t.position) == r + 1;
  }

  /**
   * Moving every record to one past its place in the ordered view gives an
   * ordered view that is the old one, in the same order, with positions
   * exactly `1..N`.
   */
  lemma RenumberView(store: seq<RawTerm>)
    requires StoreIdsDistinct(store)
    ensures ViewOf(RenumberedUpTo(store, |store|)) == Renumbered(ViewOf(store))
  {
    var n := |store|;
    var w := ViewOf(RenumberedUpTo(store, n));
    ViewLength(store);
    RenumberedAllPlaced(store);
    forall k | 0 <= k < n
      ensures 1 <= PositionNumber(w[k].position) <= n
    {
      RenumberedViewEntry(store, k);
    }
    AscendingIsExact(w);
    forall k | 0 <= k < n
      ensures w[k] == Renumbered(ViewOf(store))[k]
    {
      RenumberedViewEntry(store, k);
    }
  }
}

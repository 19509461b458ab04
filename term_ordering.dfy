/**
 * The ordered view of the editorial metadata terms.
 *
 * Terms are visited in storage order. A term whose position is truthy and not
 * yet taken is placed under that position; every other term (no position, a
 * zero position, or a position an earlier term already holds) is held back.
 * The placed terms are then listed by ascending position, followed by the held
 * terms in storage order.
 */
module TermOrdering {
  import opened Codec
  import opened MetadataTerm

  /** The two piles: terms placed by position, and terms held back in storage order. */
  datatype Split = Split(placed: map<int, Term>, held: seq<Term>)

  /** The partition loop of the ordering, as a left fold over the storage order. */
  function Partition(ts: seq<Term>): Split
    decreases |ts|
  {
    if ts == [] then Split(map[], [])
    else
      var p := Partition(ts[..|ts| - 1]);
      var t := ts[|ts| - 1];
      if Truthy(t.position) && t.position.n !in p.placed
      then Split(p.placed[t.position.n := t], p.held)
      else Split(p.placed, p.held + [t])
  }

  lemma NonEmptyHasElement(s: set<int>)
    requires s != {}
    ensures exists k :: k in s
  {
    if !exists k :: k in s {
      assert false;
    }
  }

  lemma {:induction false} MinExists(s: set<int>)
    requires s != {}
    ensures exists k :: k in s && forall j :: j in s ==> k <= j
    decreases s
  {
    NonEmptyHasElement(s);
    var x :| x in s;
    if s != {x} {
      var rest := s - {x};
      MinExists(rest);
      var m :| m in rest && forall j :: j in rest ==> m <= j;
      var least := if x < m then x else m;
      forall j | j in s
        ensures least <= j
      {
        if j != x {
          assert j in rest;
        }
      }
    } else {
      assert forall j :: j in s ==> x <= j;
    }
  }

  ghost function MinKey(s: set<int>): (k: int)
    requires s != {}
    ensures k in s && forall j :: j in s ==> k <= j
  {
    MinExists(s);
    var k :| k in s && forall j :: j in s ==> k <= j;
    k
  }

  /** The values of `m` by ascending key (PHP `ksort` followed by `array_values`). */
  ghost function SortedByKey(m: map<int, Term>): seq<Term>
    decreases m.Keys
  {
    if m == map[] then []
    else
      var k := MinKey(m.Keys);
      [m[k]] + SortedByKey(m - {k})
  }

  /** The ordered view of the decoded terms `ts`, given in storage order. */
  ghost function OrderedView(ts: seq<Term>): seq<Term> {
    var p := Partition(ts);
    SortedByKey(p.placed) + p.held
  }

  /** How many terms of the ordered view were placed by position. */
  ghost function NumPlaced(ts: seq<Term>): nat {
    |SortedByKey(Partition(ts).placed)|
  }

  // ---------------------------------------------------------------------------
  // Reference definitions, stated without the partition

  /**
   * Term `i` keeps a slot: its position is truthy and no earlier term has the
   * same position.
   */
  ghost predicate IsFirst(ts: seq<Term>, i: int)
    requires 0 <= i < |ts|
  {
    Truthy(ts[i].position) && forall j :: 0 <= j < i ==> ts[j].position != ts[i].position
  }

  /** The terms that do not keep a slot, in storage order. */
  ghost function Held(ts: seq<Term>): seq<Term>
    decreases |ts|
  {
    if ts == [] then []
    else Held(ts[..|ts| - 1]) + (if IsFirst(ts, |ts| - 1) then [] else [ts[|ts| - 1]])
  }

  /** The truthy positions occurring among `ts`. */
  ghost function TruthyPositions(ts: seq<Term>): set<int> {
    set i | 0 <= i < |ts| && Truthy(ts[i].position) :: ts[i].position.n
  }

  /** Every placed term sits under its own, truthy, position. */
  ghost predicate KeyedByPosition(m: map<int, Term>) {
    forall k :: k in m ==> k != 0 && m[k].position == At(k)
  }

  // ---------------------------------------------------------------------------
  // Sorting by key

  /** Every entry of `SortedByKey(m)` is the value of `m` under its own position. */
  lemma {:induction false} SortedByKeyKeyed(m: map<int, Term>)
    requires KeyedByPosition(m)
    ensures forall i :: 0 <= i < |SortedByKey(m)| ==>
              var t := SortedByKey(m)[i];
              t.position.At? && t.position.n in m && m[t.position.n] == t
    decreases m.Keys
  {
    if m != map[] {
      var k := MinKey(m.Keys);
      SortedByKeyKeyed(m - {k});
    }
  }

  /** `SortedByKey(m)` lists the values of `m` by strictly ascending position. */
  lemma {:induction false} SortedByKeyAscending(m: map<int, Term>)
    requires KeyedByPosition(m)
    ensures forall i, j :: 0 <= i < j < |SortedByKey(m)| ==>
              PositionNumber(SortedByKey(m)[i].position) < PositionNumber(SortedByKey(m)[j].position)
    decreases m.Keys
  {
    if m != map[] {
      var k := MinKey(m.Keys);
      var rest := m - {k};
      SortedByKeyAscending(rest);
      SortedByKeyKeyed(rest);
      var r := SortedByKey(m);
      assert r == [m[k]] + SortedByKey(rest);
      forall i | 1 <= i < |r|
        ensures PositionNumber(r[0].position) < PositionNumber(r[i].position)
      {
        assert r[i] == SortedByKey(rest)[i - 1];
      }
    }
  }

  /** Every value of `m` appears in `SortedByKey(m)`. */
  lemma {:induction false} SortedByKeyContains(m: map<int, Term>)
    ensures forall k :: k in m ==> m[k] in SortedByKey(m)
    decreases m.Keys
  {
    if m != map[] {
      var k := MinKey(m.Keys);
      var rest := m - {k};
      SortedByKeyContains(rest);
      forall k' | k' in m
        ensures m[k'] in SortedByKey(m)
      {
        if k' != k {
          assert k' in rest;
        }
      }
    }
  }

  /** Adding a value under a fresh key adds exactly that value to the sorted list. */
  lemma {:induction false} SortedByKeyInsert(m: map<int, Term>, k: int, t: Term)
    requires k !in m
    ensures multiset(SortedByKey(m[k := t])) == multiset(SortedByKey(m)) + multiset{t}
    decreases m.Keys
  {
    var m' := m[k := t];
    var j := MinKey(m'.Keys);
    if j == k {
      assert m' - {k} == m;
    } else {
      var k0 := MinKey(m.Keys);
      assert k0 in m'.Keys && j in m.Keys;
      assert k0 == j;
      assert m' - {j} == (m - {j})[k := t];
      SortedByKeyInsert(m - {j}, k, t);
    }
  }

  // ---------------------------------------------------------------------------
  // The partition against the reference definitions

  /** Whether term `i` keeps a slot depends only on the terms before it. */
  lemma IsFirstPrefix(ts: seq<Term>, n: nat, i: nat)
    requires i < n <= |ts|
    ensures IsFirst(ts[..n], i) == IsFirst(ts, i)
  {
    assert forall j :: 0 <= j <= i ==> ts[..n][j] == ts[j];
  }

  /** The truthy positions of `ts` with one more term appended. */
  lemma TruthyPositionsSnoc(ts: seq<Term>, t: Term)
    ensures TruthyPositions(ts + [t]) ==
            TruthyPositions(ts) + (if Truthy(t.position) then {t.position.n} else {})
  {
    var u := ts + [t];
    var extra := if Truthy(t.position) then {t.position.n} else {};
    forall x | x in TruthyPositions(u)
      ensures x in TruthyPositions(ts) + extra
    {
      var i :| 0 <= i < |u| && Truthy(u[i].position) && u[i].position.n == x;
      if i < |ts| {
        assert u[i] == ts[i];
      }
    }
    forall x | x in TruthyPositions(ts) + extra
      ensures x in TruthyPositions(u)
    {
      if x in TruthyPositions(ts) {
        var i :| 0 <= i < |ts| && Truthy(ts[i].position) && ts[i].position.n == x;
        assert u[i] == ts[i];
      } else {
        assert u[|ts|] == t;
      }
    }
  }

  /** A term appended after `pre` keeps a slot exactly when the partition of `pre` has not taken its position. */
  lemma IsFirstSnoc(pre: seq<Term>, t: Term)
    ensures Partition(pre).placed.Keys == TruthyPositions(pre) ==>
            (IsFirst(pre + [t], |pre|) <==> Truthy(t.position) && t.position.n !in Partition(pre).placed)
  {
    var ts := pre + [t];
    var n := |pre|;
    if Partition(pre).placed.Keys == TruthyPositions(pre) {
      if Truthy(t.position) && t.position.n !in Partition(pre).placed {
        forall j | 0 <= j < n
          ensures ts[j].position != t.position
        {
          assert ts[j] == pre[j];
          if Truthy(pre[j].position) {
            assert pre[j].position.n in TruthyPositions(pre);
          }
        }
      } else if Truthy(t.position) {
        var j :| 0 <= j < n && Truthy(pre[j].position) && pre[j].position.n == t.position.n;
        assert ts[j] == pre[j];
      }
    }
  }

  /** The partition keys each placed term by its own truthy position, and takes every truthy position. */
  lemma {:induction false} PartitionKeyed(ts: seq<Term>)
    ensures KeyedByPosition(Partition(ts).placed)
    ensures Partition(ts).placed.Keys == TruthyPositions(ts)
    decreases |ts|
  {
    if ts != [] {
      var pre := ts[..|ts| - 1];
      assert ts == pre + [ts[|ts| - 1]];
      PartitionKeyed(pre);
      TruthyPositionsSnoc(pre, ts[|ts| - 1]);
    }
  }

  /** Every term that keeps a slot is the one placed under its position. */
  lemma {:induction false} PartitionFirsts(ts: seq<Term>)
    ensures forall i :: 0 <= i < |ts| && IsFirst(ts, i) ==>
              ts[i].position.n in Partition(ts).placed && Partition(ts).placed[ts[i].position.n] == ts[i]
    decreases |ts|
  {
    if ts != [] {
      var n := |ts| - 1;
      var pre := ts[..n];
      var t := ts[n];
      assert ts == pre + [t];
      PartitionFirsts(pre);
      PartitionKeyed(pre);
      IsFirstSnoc(pre, t);
      forall i | 0 <= i < |ts| && IsFirst(ts, i)
        ensures ts[i].position.n in Partition(ts).placed && Partition(ts).placed[ts[i].position.n] == ts[i]
      {
        if i < n {
          IsFirstPrefix(ts, n, i);
          assert ts[i] == pre[i];
          if Truthy(t.position) && t.position.n !in Partition(pre).placed {
            assert t.position.n != ts[i].position.n;
          }
        }
      }
    }
  }

  /** The partition holds back exactly the terms that do not keep a slot, in storage order. */
  lemma {:induction false} PartitionHeld(ts: seq<Term>)
    ensures Partition(ts).held == Held(ts)
    decreases |ts|
  {
    if ts != [] {
      var n := |ts| - 1;
      var pre := ts[..n];
      assert ts == pre + [ts[n]];
      PartitionHeld(pre);
      PartitionKeyed(pre);
      IsFirstSnoc(pre, ts[n]);
      forall i | 0 <= i < n
        ensures IsFirst(pre, i) == IsFirst(ts, i)
      {
        IsFirstPrefix(ts, n, i);
      }
      assert Held(pre) == Held(ts[..n]);
    }
  }

  /** The partition loses and invents nothing. */
  lemma {:induction false} PartitionMultiset(ts: seq<Term>)
    ensures multiset(ts) == multiset(SortedByKey(Partition(ts).placed)) + multiset(Partition(ts).held)
    decreases |ts|
  {
    if ts != [] {
      var n := |ts| - 1;
      var pre := ts[..n];
      var t := ts[n];
      assert ts == pre + [t];
      PartitionMultiset(pre);
      var p := Partition(pre);
      if Truthy(t.position) && t.position.n !in p.placed {
        SortedByKeyInsert(p.placed, t.position.n, t);
      }
    }
  }

  /**
   * The ordered view is a permutation of the stored terms. Its first
   * `NumPlaced(ts)` entries carry truthy positions in strictly ascending order
   * and include every term that keeps a slot (the first term met with each
   * position); the rest are the other terms, in storage order.
   */
  lemma OrderedViewSpec(ts: seq<Term>)
    ensures multiset(OrderedView(ts)) == multiset(ts)
    ensures |OrderedView(ts)| == |ts|
    ensures NumPlaced(ts) <= |ts|
    ensures OrderedView(ts)[NumPlaced(ts)..] == Held(ts)
    ensures forall i :: 0 <= i < NumPlaced(ts) ==> Truthy(OrderedView(ts)[i].position)
    ensures forall i, j :: 0 <= i < j < NumPlaced(ts) ==>
              PositionNumber(OrderedView(ts)[i].position) < PositionNumber(OrderedView(ts)[j].position)
    ensures forall i :: 0 <= i < |ts| && IsFirst(ts, i) ==> ts[i] in OrderedView(ts)[..NumPlaced(ts)]
  {
    PartitionKeyed(ts);
    PartitionFirsts(ts);
    PartitionHeld(ts);
    PartitionMultiset(ts);
    var p := Partition(ts);
    SortedByKeyKeyed(p.placed);
    SortedByKeyAscending(p.placed);
    SortedByKeyContains(p.placed);
    var r := OrderedView(ts);
    assert |r| == |multiset(r)| == |multiset(ts)| == |ts|;
    assert r[..NumPlaced(ts)] == SortedByKey(p.placed);
    forall i | 0 <= i < |ts| && IsFirst(ts, i)
      ensures ts[i] in r[..NumPlaced(ts)]
    {
      assert ts[i].position.n in TruthyPositions(ts);
    }
  }

  // ---------------------------------------------------------------------------
  // The loop of the source

  /** PHP `ksort` followed by `array_values`: the values of `m`, least key first. */
  method SortByKey(m: map<int, Term>) returns (sorted: seq<Term>)
    ensures sorted == SortedByKey(m)
  {
    sorted := [];
    var rest := m;
    while rest != map[]
      invariant sorted + SortedByKey(rest) == SortedByKey(m)
      decreases rest.Keys
    {
      ghost var least := MinKey(rest.Keys);
      var k :| k in rest && forall j :: j in rest ==> k <= j;
      assert k == least;
      sorted := sorted + [rest[k]];
      rest := rest - {k};
    }
  }

  /**
   * The ordering loop: decode each stored term, place it by position or hold
   * it back, sort the placed terms by position and append the held ones.
   */
  method OrderTerms(raws: seq<RawTerm>) returns (r: seq<Term>)
    ensures r == OrderedView(DecorateAll(raws))
  {
    ghost var ts := DecorateAll(raws);
    var ordered: map<int, Term> := map[];
    var holdToEnd: seq<Term> := [];
    for i := 0 to |raws|
      invariant Split(ordered, holdToEnd) == Partition(ts[..i])
    {
      var t := Decorate(raws[i]);
      assert ts[..i + 1][..i] == ts[..i];
      if Truthy(t.position) && t.position.n !in ordered {
        ordered := ordered[t.position.n := t];
      } else {
        holdToEnd := holdToEnd + [t];
      }
    }
    assert ts[..|raws|] == ts;
    var sorted := SortByKey(ordered);
    r := sorted + holdToEnd;
  }
}

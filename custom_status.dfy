/**
 * The custom status registry the REST endpoint drives. Its own source is not
 * part of this model: it is described here by the behaviour the endpoint
 * relies on. Statuses are terms with distinct ids and distinct slugs; adding
 * refuses a slug in use and appends the status at the end; updating merges
 * the supplied fields over a status and refuses a slug another status holds;
 * both adding and updating refuse a name with no visible character, as
 * `wp_insert_term` and `wp_update_term` do; updating and deleting refuse an
 * id no status has. The statuses are listed ordered by position.
 */
module CustomStatus {
  import opened Wrappers
  import opened PhpText

  datatype Status = Status(
    termId: nat,
    name: string,
    slug: string,
    description: string,
    position: int,
    isReviewRequired: bool)

  /** The optional fields of an update: a present field overrides the status's value. */
  datatype StatusArgs = StatusArgs(
    name: Option<string>,
    slug: Option<string>,
    description: Option<string>,
    position: Option<int>,
    isReviewRequired: Option<bool>)

  /** Why the registry refused a write. */
  datatype StatusError = NoSuchStatus | EmptyName | SlugTaken

  /** The arguments that only move a status. */
  function PositionOnly(position: int): StatusArgs {
    StatusArgs(None, None, None, Some(position), None)
  }

  /** Supplied fields override, omitted fields keep their value; the id never changes. */
  function ApplyArgs(s: Status, args: StatusArgs): (r: Status)
    ensures r.termId == s.termId
    ensures r.name == (if args.name.Some? then args.name.value else s.name)
    ensures r.slug == (if args.slug.Some? then args.slug.value else s.slug)
    ensures r.description == (if args.description.Some? then args.description.value else s.description)
    ensures r.position == (if args.position.Some? then args.position.value else s.position)
    ensures r.isReviewRequired == (if args.isReviewRequired.Some? then args.isReviewRequired.value else s.isReviewRequired)
  {
    Status(s.termId, args.name.GetOr(s.name), args.slug.GetOr(s.slug), args.description.GetOr(s.description),
           args.position.GetOr(s.position), args.isReviewRequired.GetOr(s.isReviewRequired))
  }

  /** The index of the status with id `id`, or `|statuses|` when there is none. */
  function IndexOf(statuses: seq<Status>, id: int): (k: nat)
    ensures k <= |statuses|
    ensures k < |statuses| ==> statuses[k].termId == id
    ensures forall j :: 0 <= j < k ==> statuses[j].termId != id
    decreases |statuses|
  {
    if statuses == [] then 0
    else if statuses[0].termId == id then 0
    else 1 + IndexOf(statuses[1..], id)
  }

  predicate HasStatus(statuses: seq<Status>, id: int) {
    IndexOf(statuses, id) < |statuses|
  }

  /** `get_custom_status_by('id', id)`. */
  function ById(statuses: seq<Status>, id: int): (r: Option<Status>)
    ensures r.Some? <==> exists j :: 0 <= j < |statuses| && statuses[j].termId == id
    ensures r.Some? ==> r.value.termId == id && r.value in statuses
  {
    if HasStatus(statuses, id) then Some(statuses[IndexOf(statuses, id)]) else None
  }

  /** `get_custom_status_by('slug', slug)`: the first status with that slug. */
  function BySlug(statuses: seq<Status>, slug: string): (r: Option<Status>)
    ensures r.None? <==> forall j :: 0 <= j < |statuses| ==> statuses[j].slug != slug
    ensures r.Some? ==> r.value.slug == slug && r.value in statuses
    decreases |statuses|
  {
    if statuses == [] then None
    else if statuses[0].slug == slug then Some(statuses[0])
    else BySlug(statuses[1..], slug)
  }

  /** Whether a status other than the one with id `id` holds slug `slug`. */
  predicate SlugHeldByOther(statuses: seq<Status>, slug: string, id: int) {
    exists j :: 0 <= j < |statuses| && statuses[j].slug == slug && statuses[j].termId != id
  }

  /** Distinct ids below the next id, distinct slugs, and names with a visible character. */
  ghost predicate Wellformed(statuses: seq<Status>, nextId: nat) {
    && (forall j :: 0 <= j < |statuses| ==> statuses[j].termId < nextId)
    && (forall j :: 0 <= j < |statuses| ==> HasVisibleChar(statuses[j].name))
    && (forall i, j :: 0 <= i < j < |statuses| ==> statuses[i].termId != statuses[j].termId)
    && (forall i, j :: 0 <= i < j < |statuses| ==> statuses[i].slug != statuses[j].slug)
  }

  /** In a well-formed list the index of a stored id is where it is stored. */
  lemma IndexOfStored(statuses: seq<Status>, nextId: nat, j: nat)
    requires Wellformed(statuses, nextId) && j < |statuses|
    ensures IndexOf(statuses, statuses[j].termId) == j
  {
  }

  /** What a write leaves behind: its result and the new list. */
  datatype Outcome<T> = Outcome(result: Result<T, StatusError>, statuses: seq<Status>)

  /**
   * `add_custom_status`: refused when the name has no visible character, then
   * when the slug is in use; otherwise appended under the next id, at the end.
   */
  function AddOutcome(statuses: seq<Status>, nextId: nat, name: string, slug: string, description: string,
                      isReviewRequired: bool): Outcome<Status>
  {
    if !HasVisibleChar(name) then Outcome(Err(EmptyName), statuses)
    else if exists j :: 0 <= j < |statuses| && statuses[j].slug == slug then Outcome(Err(SlugTaken), statuses)
    else
      var s := Status(nextId, name, slug, description, |statuses| + 1, isReviewRequired);
      Outcome(Ok(s), statuses + [s])
  }

  /**
   * `update_custom_status`: refused for a missing id, then when the merged name
   * has no visible character, then when another status holds the merged slug;
   * otherwise merged in place.
   */
  function UpdateOutcome(statuses: seq<Status>, id: int, args: StatusArgs): Outcome<Status> {
    if !HasStatus(statuses, id) then Outcome(Err(NoSuchStatus), statuses)
    else
      var k := IndexOf(statuses, id);
      var s := ApplyArgs(statuses[k], args);
      if !HasVisibleChar(s.name) then Outcome(Err(EmptyName), statuses)
      else if SlugHeldByOther(statuses, s.slug, id) then Outcome(Err(SlugTaken), statuses)
      else Outcome(Ok(s), statuses[k := s])
  }

  /** `delete_custom_status`: refused for a missing id; otherwise the status is removed. */
  function DeleteOutcome(statuses: seq<Status>, id: int): Outcome<bool> {
    if !HasStatus(statuses, id) then Outcome(Err(NoSuchStatus), statuses)
    else
      var k := IndexOf(statuses, id);
      Outcome(Ok(true), statuses[..k] + statuses[k + 1..])
  }

  /** An accepted add keeps ids and slugs distinct and finds the new status by id and by slug. */
  lemma AddKeepsWellformed(statuses: seq<Status>, nextId: nat, name: string, slug: string, description: string,
                           isReviewRequired: bool)
    requires Wellformed(statuses, nextId)
    ensures var o := AddOutcome(statuses, nextId, name, slug, description, isReviewRequired);
            o.result.Ok? ==>
              && Wellformed(o.statuses, nextId + 1)
              && ById(o.statuses, nextId) == Some(o.result.value)
              && BySlug(o.statuses, slug) == Some(o.result.value)
  {
    var o := AddOutcome(statuses, nextId, name, slug, description, isReviewRequired);
    if o.result.Ok? {
      var s := o.result.value;
      assert o.statuses == statuses + [s];
      IndexOfStored(o.statuses, nextId + 1, |statuses|);
      BySlugAppended(statuses, s);
    }
  }

  /** A status appended under a slug no status holds is the one a lookup by that slug finds. */
  lemma {:induction false} BySlugAppended(statuses: seq<Status>, s: Status)
    requires forall j :: 0 <= j < |statuses| ==> statuses[j].slug != s.slug
    ensures BySlug(statuses + [s], s.slug) == Some(s)
    decreases |statuses|
  {
    if statuses != [] {
      assert (statuses + [s])[1..] == statuses[1..] + [s];
      BySlugAppended(statuses[1..], s);
    }
  }

  /** An accepted update keeps ids and slugs distinct, and the id then finds the merged status. */
  lemma UpdateKeepsWellformed(statuses: seq<Status>, nextId: nat, id: int, args: StatusArgs)
    requires Wellformed(statuses, nextId)
    ensures var o := UpdateOutcome(statuses, id, args);
            o.result.Ok? ==> Wellformed(o.statuses, nextId) && ById(o.statuses, id) == Some(o.result.value)
  {
    var o := UpdateOutcome(statuses, id, args);
    if o.result.Ok? {
      var k := IndexOf(statuses, id);
      var s := o.result.value;
      assert o.statuses == statuses[k := s];
      forall i, j | 0 <= i < j < |o.statuses|
        ensures o.statuses[i].slug != o.statuses[j].slug
      {
        if i == k {
          assert statuses[j].termId != id;
        } else if j == k {
          assert statuses[i].termId != id;
        }
      }
      IndexOfStored(o.statuses, nextId, k);
    }
  }

  /** An accepted delete keeps ids and slugs distinct, and the id then finds nothing. */
  lemma DeleteKeepsWellformed(statuses: seq<Status>, nextId: nat, id: int)
    requires Wellformed(statuses, nextId)
    ensures var o := DeleteOutcome(statuses, id);
            Wellformed(o.statuses, nextId) && ById(o.statuses, id).None?
  {
    var o := DeleteOutcome(statuses, id);
    if HasStatus(statuses, id) {
      var k := IndexOf(statuses, id);
      forall i | 0 <= i < |o.statuses|
        ensures o.statuses[i] == statuses[if i < k then i else i + 1]
      {
      }
      forall i | 0 <= i < |o.statuses|
        ensures o.statuses[i].termId != id
      {
        assert o.statuses[i] == statuses[if i < k then i else i + 1];
      }
    }
  }

  // ---------------------------------------------------------------------------
  // The statuses as `get_custom_statuses` lists them

  /** Positions never decrease along `statuses`. */
  predicate ByPositionAscending(statuses: seq<Status>) {
    forall i, j :: 0 <= i < j < |statuses| ==> statuses[i].position <= statuses[j].position
  }

  /** `s` put into a list before the first status with a greater position. */
  function InsertByPosition(s: Status, sorted: seq<Status>): (r: seq<Status>)
    ensures multiset(r) == multiset(sorted) + multiset{s}
    decreases |sorted|
  {
    if sorted == [] || s.position <= sorted[0].position then [s] + sorted
    else
      assert sorted == [sorted[0]] + sorted[1..];
      [sorted[0]] + InsertByPosition(s, sorted[1..])
  }

  /** A bound below `s` and every status of `sorted` is a bound below every status after the insertion. */
  lemma {:induction false} InsertByPositionAbove(s: Status, sorted: seq<Status>, bound: int)
    requires bound < s.position && forall k :: 0 <= k < |sorted| ==> bound < sorted[k].position
    ensures forall k :: 0 <= k < |InsertByPosition(s, sorted)| ==> bound < InsertByPosition(s, sorted)[k].position
    decreases |sorted|
  {
    if sorted != [] && s.position > sorted[0].position {
      InsertByPositionAbove(s, sorted[1..], bound);
    }
  }

  /** Inserting into an ascending list keeps it ascending. */
  lemma {:induction false} InsertByPositionAscending(s: Status, sorted: seq<Status>)
    requires ByPositionAscending(sorted)
    ensures ByPositionAscending(InsertByPosition(s, sorted))
    decreases |sorted|
  {
    if sorted != [] && s.position > sorted[0].position {
      var rest := InsertByPosition(s, sorted[1..]);
      InsertByPositionAscending(s, sorted[1..]);
      InsertByPositionAbove(s, sorted[1..], sorted[0].position - 1);
      var r := InsertByPosition(s, sorted);
      assert r == [sorted[0]] + rest;
      forall i, j | 0 <= i < j < |r|
        ensures r[i].position <= r[j].position
      {
        if i > 0 {
          assert r[i] == rest[i - 1] && r[j] == rest[j - 1];
        } else {
          assert r[j] == rest[j - 1];
        }
      }
    }
  }

  /**
   * The statuses ordered by position: a permutation of them whose positions
   * ascend.
   */
  function ByPosition(statuses: seq<Status>): (r: seq<Status>)
    ensures multiset(r) == multiset(statuses)
    ensures ByPositionAscending(r)
    decreases |statuses|
  {
    if statuses == [] then []
    else
      assert statuses == [statuses[0]] + statuses[1..];
      InsertByPositionAscending(statuses[0], ByPosition(statuses[1..]));
      InsertByPosition(statuses[0], ByPosition(statuses[1..]))
  }

  /** Positions strictly ascend along `statuses`. */
  predicate StrictlyByPosition(statuses: seq<Status>) {
    forall i, j :: 0 <= i < j < |statuses| ==> statuses[i].position < statuses[j].position
  }

  /** Inserting a status whose position no other has into a strictly ascending list keeps it strictly ascending. */
  lemma {:induction false} InsertByPositionStrict(s: Status, sorted: seq<Status>)
    requires StrictlyByPosition(sorted)
    requires forall k :: 0 <= k < |sorted| ==> sorted[k].position != s.position
    ensures StrictlyByPosition(InsertByPosition(s, sorted))
    decreases |sorted|
  {
    if sorted != [] && s.position > sorted[0].position {
      var rest := InsertByPosition(s, sorted[1..]);
      InsertByPositionStrict(s, sorted[1..]);
      InsertByPositionAbove(s, sorted[1..], sorted[0].position);
      var r := InsertByPosition(s, sorted);
      assert r == [sorted[0]] + rest;
      forall i, j | 0 <= i < j < |r|
        ensures r[i].position < r[j].position
      {
        if i > 0 {
          assert r[i] == rest[i - 1] && r[j] == rest[j - 1];
        } else {
          assert r[j] == rest[j - 1];
        }
      }
    }
  }

  /** Statuses at pairwise distinct positions are listed with strictly ascending positions. */
  lemma {:induction false} ByPositionStrict(statuses: seq<Status>)
    requires forall i, j :: 0 <= i < j < |statuses| ==> statuses[i].position != statuses[j].position
    ensures StrictlyByPosition(ByPosition(statuses))
    decreases |statuses|
  {
    if statuses != [] {
      var tail := statuses[1..];
      var sorted := ByPosition(tail);
      ByPositionStrict(tail);
      forall k | 0 <= k < |sorted|
        ensures sorted[k].position != statuses[0].position
      {
        assert sorted[k] in multiset(tail);
        var q :| 0 <= q < |tail| && tail[q] == sorted[k];
        assert statuses[q + 1] == sorted[k];
      }
      InsertByPositionStrict(statuses[0], sorted);
    }
  }

  lemma {:induction false} StrictPositionAtLeast(v: seq<Status>, k: nat)
    requires k < |v| && StrictlyByPosition(v)
    requires forall i :: 0 <= i < |v| ==> 1 <= v[i].position
    ensures k + 1 <= v[k].position
    decreases k
  {
    if k > 0 {
      StrictPositionAtLeast(v, k - 1);
    }
  }

  lemma {:induction false} StrictPositionAtMost(v: seq<Status>, k: nat)
    requires k < |v| && StrictlyByPosition(v)
    requires forall i :: 0 <= i < |v| ==> v[i].position <= |v|
    ensures v[k].position <= k + 1
    decreases |v| - k
  {
    if k + 1 < |v| {
      StrictPositionAtMost(v, k + 1);
    }
  }

  /** A list ordered by distinct positions drawn from `1..|statuses|` holds position `k + 1` at index `k`. */
  lemma ByPositionExact(statuses: seq<Status>)
    requires forall i :: 0 <= i < |statuses| ==> 1 <= statuses[i].position <= |statuses|
    requires forall i, j :: 0 <= i < j < |statuses| ==> statuses[i].position != statuses[j].position
    ensures |ByPosition(statuses)| == |statuses|
    ensures forall k :: 0 <= k < |statuses| ==> ByPosition(statuses)[k].position == k + 1
  {
    var r := ByPosition(statuses);
    assert |r| == |multiset(r)| == |multiset(statuses)| == |statuses|;
    ByPositionStrict(statuses);
    forall k | 0 <= k < |r|
      ensures 1 <= r[k].position <= |r|
    {
      assert r[k] in multiset(statuses);
    }
    forall k | 0 <= k < |r|
      ensures r[k].position == k + 1
    {
      StrictPositionAtLeast(r, k);
      StrictPositionAtMost(r, k);
    }
  }

  class Registry {
    /** The statuses, in the order the registry lists them. */
    var statuses: seq<Status>
    /** The id the next added status receives. */
    var nextId: nat
    /** The lower-case names reserved for WordPress's own post statuses. */
    const restricted: set<string>

    ghost predicate Valid()
      reads this
    {
      Wellformed(statuses, nextId)
    }

    constructor(restricted: set<string>)
      ensures Valid() && statuses == [] && nextId == 1 && this.restricted == restricted
    {
      statuses := [];
      nextId := 1;
      this.restricted := restricted;
    }

    /** `get_custom_statuses`: every status, ordered by position. */
    function GetCustomStatuses(): (r: seq<Status>)
      reads this
      ensures multiset(r) == multiset(statuses)
      ensures ByPositionAscending(r)
    {
      ByPosition(statuses)
    }

    /** `is_restricted_status`. */
    predicate IsRestrictedStatus(name: string) {
      name in restricted
    }

    /** `add_custom_status`: the outcome `AddOutcome` describes; an added status takes the next id. */
    method Add(name: string, slug: string, description: string, isReviewRequired: bool) returns (r: Result<Status, StatusError>)
      requires Valid()
      modifies this
      ensures Valid()
      ensures var o := AddOutcome(old(statuses), old(nextId), name, slug, description, isReviewRequired);
              r == o.result && statuses == o.statuses
      ensures nextId == if r.Ok? then old(nextId) + 1 else old(nextId)
    {
      AddKeepsWellformed(statuses, nextId, name, slug, description, isReviewRequired);
      var o := AddOutcome(statuses, nextId, name, slug, description, isReviewRequired);
      r := o.result;
      statuses := o.statuses;
      if r.Ok? {
        nextId := nextId + 1;
      }
    }

    /** `update_custom_status`: the outcome `UpdateOutcome` describes. */
    method Update(id: int, args: StatusArgs) returns (r: Result<Status, StatusError>)
      requires Valid()
      modifies this`statuses
      ensures Valid()
      ensures r == UpdateOutcome(old(statuses), id, args).result
      ensures statuses == UpdateOutcome(old(statuses), id, args).statuses
    {
      UpdateKeepsWellformed(statuses, nextId, id, args);
      var o := UpdateOutcome(statuses, id, args);
      r := o.result;
      statuses := o.statuses;
    }

    /** `delete_custom_status`: the outcome `DeleteOutcome` describes. */
    method Delete(id: int) returns (r: Result<bool, StatusError>)
      requires Valid()
      modifies this`statuses
      ensures Valid()
      ensures r == DeleteOutcome(old(statuses), id).result
      ensures statuses == DeleteOutcome(old(statuses), id).statuses
    {
      DeleteKeepsWellformed(statuses, nextId, id);
      var o := DeleteOutcome(statuses, id);
      r := o.result;
      statuses := o.statuses;
    }
  }
}

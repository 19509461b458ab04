/**
 * The REST endpoint for custom statuses: the validate and sanitize callbacks
 * of its parameters, the checks that guard creating and updating a status,
 * deleting one, and reordering them all.
 *
 * `sanitize_text_field` and `sanitize_title` belong to WordPress; a request
 * passes through them as the functions in `Sanitizers`. `term_exists` is the
 * lookup by slug, then by name, over the statuses' terms; a term with no
 * visible character finds nothing.
 */
module CustomStatusEndpoint {
  import opened Wrappers
  import opened PhpText
  import opened CustomStatus

  const NAME_LENGTH_LIMIT: nat := 20

  const NUMERIC_NAME_MESSAGE: string := "Please enter a valid, non-numeric name for the status."
  const RESTRICTED_NAME_MESSAGE: string := "Status name is restricted. Please chose another name."
  const LONG_NAME_MESSAGE: string := "Status name is too long. Please choose a name that is 20 characters or less."
  const TERM_CONFLICT_MESSAGE: string := "Status name conflicts with existing term. Please choose another."
  const STATUS_EXISTS_MESSAGE: string := "Status already exists. Please choose another name."
  const MISSING_STATUS_MESSAGE: string := "Status does not exist."
  const ORDER_NOT_ARRAY_MESSAGE: string := "Status order must be an array."

  /** Why a request failed: one of the endpoint's own checks, or a refusal passed on from the registry. */
  datatype Failure = Invalid(message: string) | Refused(error: StatusError)

  /** The WordPress text functions a status name passes through. */
  datatype Sanitizers = Sanitizers(text: string -> string, title: string -> string)

  /** The registry's answer as the endpoint returns it. */
  function Respond<T>(r: Result<T, StatusError>): (e: Result<T, Failure>)
    ensures e.Ok? <==> r.Ok?
    ensures r.Ok? ==> e.value == r.value
    ensures r.Err? ==> e.error == Refused(r.error)
  {
    match r
    case Ok(v) => Ok(v)
    case Err(err) => Err(Refused(err))
  }

  // ---------------------------------------------------------------------------
  // Parameter callbacks

  /** The `name` validate callback: the name must not be PHP-empty once trimmed. */
  predicate ValidateName(param: string) {
    !PhpEmpty(Trim(param))
  }

  /**
   * The `name` sanitize callback: the parameter with the trimmable characters
   * at both ends removed. What remains is the run of `param` from its first
   * to its last character `trim` keeps; a valid name stays valid.
   */
  function SanitizeName(param: string): (r: string)
    ensures r != [] ==> !IsTrimmed(r[0]) && !IsTrimmed(r[|r| - 1])
    ensures LeadLength(param) + |r| <= |param| && r == param[LeadLength(param)..LeadLength(param) + |r|]
    ensures forall i :: 0 <= i < |param| && !(LeadLength(param) <= i < LeadLength(param) + |r|) ==> IsTrimmed(param[i])
    ensures Trim(r) == r
    ensures ValidateName(param) ==> ValidateName(r)
  {
    TrimIdempotent(param);
    Trim(param)
  }

  /** The `id` validate callback: `absint` of the parameter must name a status. */
  predicate ValidateId(statuses: seq<Status>, param: int) {
    HasStatus(statuses, Absint(param))
  }

  /** The `id` sanitize callback: `absint`, which leaves a valid id untouched. */
  function SanitizeId(param: int): (r: nat)
    ensures param >= 0 ==> r == param
  {
    Absint(param)
  }

  /** The `status_positions` parameter: a list of ids in their new order, or something that is not an array. */
  datatype Payload = PositionList(ids: seq<int>) | NotAnArray

  /** What the `status_positions` validate callback accepts: an array every entry of which names a status. */
  predicate PositionsValid(statuses: seq<Status>, payload: Payload) {
    payload.PositionList? && forall k :: 0 <= k < |payload.ids| ==> HasStatus(statuses, Absint(payload.ids[k]))
  }

  /** The `status_positions` validate callback, entry by entry, refusing at the first id that names no status. */
  method ValidatePositions(statuses: seq<Status>, payload: Payload) returns (ok: bool)
    ensures ok <==> PositionsValid(statuses, payload)
  {
    if !payload.PositionList? {
      return false;
    }
    var ids := payload.ids;
    for k := 0 to |ids|
      invariant forall j :: 0 <= j < k ==> HasStatus(statuses, Absint(ids[j]))
    {
      var termId := Absint(ids[k]);
      if !HasStatus(statuses, termId) {
        return false;
      }
    }
    return true;
  }

  /** The `status_positions` sanitize callback: every entry replaced, in place, by its `absint`. */
  method SanitizePositions(ids: seq<int>) returns (r: seq<int>)
    ensures |r| == |ids|
    ensures forall k :: 0 <= k < |ids| ==> r[k] == Absint(ids[k])
  {
    r := ids;
    for k := 0 to |r|
      invariant |r| == |ids|
      invariant forall j :: 0 <= j < k ==> r[j] == Absint(ids[j])
      invariant forall j :: k <= j < |ids| ==> r[j] == ids[j]
    {
      r := r[k := Absint(r[k])];
    }
  }

  // ---------------------------------------------------------------------------
  // The checks before a create or an update

  /** The first status with name `name`. */
  function ByName(statuses: seq<Status>, name: string): (r: Option<Status>)
    ensures r.None? <==> forall j :: 0 <= j < |statuses| ==> statuses[j].name != name
    ensures r.Some? ==> r.value.name == name && r.value in statuses
    decreases |statuses|
  {
    if statuses == [] then None
    else if statuses[0].name == name then Some(statuses[0])
    else ByName(statuses[1..], name)
  }

  /**
   * `term_exists(slug)`: nothing for a term with no visible character;
   * otherwise the id of the first status with that slug, failing that of the
   * first with that name.
   */
  function TermExists(statuses: seq<Status>, s: string): (r: Option<nat>)
    ensures r.None? <==>
              !HasVisibleChar(s) || forall j :: 0 <= j < |statuses| ==> statuses[j].slug != s && statuses[j].name != s
    ensures HasVisibleChar(s) && BySlug(statuses, s).Some? ==> r == Some(BySlug(statuses, s).value.termId)
    ensures HasVisibleChar(s) && BySlug(statuses, s).None? && ByName(statuses, s).Some? ==>
              r == Some(ByName(statuses, s).value.termId)
  {
    var bySlug := BySlug(statuses, s);
    if !HasVisibleChar(s) then None
    else if bySlug.Some? then Some(bySlug.value.termId)
    else
      var byName := ByName(statuses, s);
      if byName.Some? then Some(byName.value.termId) else None
  }

  /**
   * The checks create and update share, in this order: a numeric name, a
   * restricted name (compared in lower case), a name longer than twenty bytes.
   * The first that fails gives the error.
   */
  function NameCheck(restricted: set<string>, name: string): (r: Option<string>)
    ensures r.None? <==>
              !IsNumeric(name) && AsciiLower(name) !in restricted && Utf8Length(name) <= NAME_LENGTH_LIMIT
    ensures IsNumeric(name) ==> r == Some(NUMERIC_NAME_MESSAGE)
    ensures !IsNumeric(name) && AsciiLower(name) in restricted ==> r == Some(RESTRICTED_NAME_MESSAGE)
    ensures !IsNumeric(name) && AsciiLower(name) !in restricted && Utf8Length(name) > NAME_LENGTH_LIMIT ==>
              r == Some(LONG_NAME_MESSAGE)
  {
    if IsNumeric(name) then Some(NUMERIC_NAME_MESSAGE)
    else if AsciiLower(name) in restricted then Some(RESTRICTED_NAME_MESSAGE)
    else if Utf8Length(name) > NAME_LENGTH_LIMIT then Some(LONG_NAME_MESSAGE)
    else None
  }

  /** The checks before a create: the name checks, then no term may already answer to the slug. */
  function CreateCheck(statuses: seq<Status>, restricted: set<string>, name: string, slug: string): (r: Option<string>)
    ensures NameCheck(restricted, name).Some? ==> r == NameCheck(restricted, name)
    ensures NameCheck(restricted, name).None? && TermExists(statuses, slug).Some? ==> r == Some(TERM_CONFLICT_MESSAGE)
    ensures r.None? <==> NameCheck(restricted, name).None? && TermExists(statuses, slug).None?
  {
    var nameCheck := NameCheck(restricted, name);
    if nameCheck.Some? then nameCheck
    else if TermExists(statuses, slug).Some? then Some(TERM_CONFLICT_MESSAGE)
    else None
  }

  /**
   * The checks before an update: the name checks; then a status found by the
   * slug is a clash unless the status being updated already has that slug;
   * then a term answering to the slug is a clash unless it is the status
   * being updated.
   */
  function UpdateCheck(statuses: seq<Status>, restricted: set<string>, id: int, name: string, slug: string): (r: Option<string>)
    ensures NameCheck(restricted, name).Some? ==> r == NameCheck(restricted, name)
    ensures (NameCheck(restricted, name).None? && BySlug(statuses, slug).Some? && ById(statuses, id).Some? &&
             ById(statuses, id).value.slug != slug) ==> r == Some(STATUS_EXISTS_MESSAGE)
    ensures (NameCheck(restricted, name).None? &&
             !(BySlug(statuses, slug).Some? && ById(statuses, id).Some? && ById(statuses, id).value.slug != slug) &&
             TermExists(statuses, slug).Some? && TermExists(statuses, slug).value != id) ==>
              r == Some(TERM_CONFLICT_MESSAGE)
    ensures r.None? <==>
              && NameCheck(restricted, name).None?
              && !(BySlug(statuses, slug).Some? && ById(statuses, id).Some? && ById(statuses, id).value.slug != slug)
              && (TermExists(statuses, slug).None? || TermExists(statuses, slug).value == id)
  {
    var nameCheck := NameCheck(restricted, name);
    if nameCheck.Some? then nameCheck
    else
      var byId := ById(statuses, id);
      var bySlug := BySlug(statuses, slug);
      if bySlug.Some? && byId.Some? && byId.value.slug != slug then Some(STATUS_EXISTS_MESSAGE)
      else
        var termExists := TermExists(statuses, slug);
        if termExists.Some? && termExists.value != id then Some(TERM_CONFLICT_MESSAGE)
        else None
  }

  /** The fields an update request writes. */
  function UpdateArgs(name: string, slug: string, description: string, isReviewRequired: bool): StatusArgs {
    StatusArgs(Some(name), Some(slug), Some(description), None, Some(isReviewRequired))
  }

  /**
   * A create that passes its checks is refused by the registry only for a
   * name with no visible character, or for a slug with none that a status
   * holds; a slug with a visible character is never taken.
   */
  lemma CreateAcceptedIsAdded(statuses: seq<Status>, nextId: nat, restricted: set<string>, name: string, slug: string,
                              description: string, isReviewRequired: bool)
    requires CreateCheck(statuses, restricted, name, slug).None?
    ensures HasVisibleChar(slug) ==> BySlug(statuses, slug).None?
    ensures AddOutcome(statuses, nextId, name, slug, description, isReviewRequired).result.Ok? <==>
              HasVisibleChar(name) && BySlug(statuses, slug).None?
  {
    if HasVisibleChar(slug) {
      assert forall j :: 0 <= j < |statuses| ==> statuses[j].slug != slug;
    }
  }

  /** In a well-formed list, looking up a stored slug finds the status that holds it. */
  lemma {:induction false} BySlugStored(statuses: seq<Status>, nextId: nat, j: nat)
    requires Wellformed(statuses, nextId) && j < |statuses|
    ensures BySlug(statuses, statuses[j].slug) == Some(statuses[j])
  {
    var r := BySlug(statuses, statuses[j].slug);
    var i :| 0 <= i < |statuses| && statuses[i] == r.value;
    assert statuses[i].slug == statuses[j].slug;
  }

  /** Keeping its own slug never makes an update clash, whatever the other statuses are. */
  lemma UpdateOwnSlugAllowed(statuses: seq<Status>, nextId: nat, restricted: set<string>, id: int, name: string)
    requires Wellformed(statuses, nextId) && HasStatus(statuses, id) && NameCheck(restricted, name).None?
    ensures UpdateCheck(statuses, restricted, id, name, ById(statuses, id).value.slug).None?
  {
    var k := IndexOf(statuses, id);
    BySlugStored(statuses, nextId, k);
  }

  /** An update to a slug another status holds is refused by the checks. */
  lemma UpdateCollisionRejected(statuses: seq<Status>, nextId: nat, restricted: set<string>, id: int, name: string,
                                slug: string)
    requires Wellformed(statuses, nextId) && HasStatus(statuses, id)
    requires SlugHeldByOther(statuses, slug, id)
    ensures UpdateCheck(statuses, restricted, id, name, slug).Some?
  {
    var j :| 0 <= j < |statuses| && statuses[j].slug == slug && statuses[j].termId != id;
    var k := IndexOf(statuses, id);
    assert statuses[k].slug != slug by {
      assert j != k;
    }
  }

  /**
   * An update of an existing status that passes its checks is refused by the
   * registry exactly when the new name has no visible character.
   */
  lemma UpdateAcceptedSucceeds(statuses: seq<Status>, nextId: nat, restricted: set<string>, id: int, name: string,
                               slug: string, description: string, isReviewRequired: bool)
    requires Wellformed(statuses, nextId) && HasStatus(statuses, id)
    requires UpdateCheck(statuses, restricted, id, name, slug).None?
    ensures UpdateOutcome(statuses, id, UpdateArgs(name, slug, description, isReviewRequired)).result.Ok? <==>
              HasVisibleChar(name)
  {
    if SlugHeldByOther(statuses, slug, id) {
      UpdateCollisionRejected(statuses, nextId, restricted, id, name, slug);
      assert false;
    }
  }

  // ---------------------------------------------------------------------------
  // Reordering

  /** What a reorder leaves behind: the registry's refusal, if any, and the statuses. */
  datatype ReorderOutcome = ReorderOutcome(failure: Option<StatusError>, statuses: seq<Status>)

  /**
   * The reorder loop from entry `k` on: entry `k` moves its status to
   * position `k + 1`; the first refusal ends the loop, with the earlier
   * moves kept.
   */
  function ReorderFrom(statuses: seq<Status>, ids: seq<int>, k: nat): ReorderOutcome
    requires k <= |ids|
    decreases |ids| - k
  {
    if k == |ids| then ReorderOutcome(None, statuses)
    else
      var o := UpdateOutcome(statuses, ids[k], PositionOnly(k + 1));
      if o.result.Err? then ReorderOutcome(Some(o.result.error), o.statuses)
      else ReorderFrom(o.statuses, ids, k + 1)
  }

  /** An accepted move at entry `k` hands the rest of the loop to entry `k + 1`. */
  lemma ReorderFromAccepted(statuses: seq<Status>, ids: seq<int>, k: nat)
    requires k < |ids| && UpdateOutcome(statuses, ids[k], PositionOnly(k + 1)).result.Ok?
    ensures ReorderFrom(statuses, ids, k) == ReorderFrom(UpdateOutcome(statuses, ids[k], PositionOnly(k + 1)).statuses, ids, k + 1)
  {
  }

  /** The last index of `id` in `ids`, or -1. */
  function LastIndex(ids: seq<int>, id: int): (k: int)
    ensures -1 <= k < |ids|
    ensures k >= 0 ==> ids[k] == id
    ensures forall j :: k < j < |ids| ==> ids[j] != id
    decreases |ids|
  {
    if ids == [] then -1
    else if ids[|ids| - 1] == id then |ids| - 1
    else LastIndex(ids[..|ids| - 1], id)
  }

  /** Each status that `ids` names at one past the last index naming it; the others as they were. */
  function Positioned(statuses: seq<Status>, ids: seq<int>): (r: seq<Status>)
    ensures |r| == |statuses|
    ensures forall j :: 0 <= j < |statuses| ==>
              r[j] == if LastIndex(ids, statuses[j].termId) >= 0
                      then statuses[j].(position := LastIndex(ids, statuses[j].termId) + 1)
                      else statuses[j]
  {
    seq(|statuses|, j requires 0 <= j < |statuses| =>
      var last := LastIndex(ids, statuses[j].termId);
      if last >= 0 then statuses[j].(position := last + 1) else statuses[j])
  }

  /** The index of the first entry naming no status, or `|ids|` when every entry names one. */
  function FirstMissing(statuses: seq<Status>, ids: seq<int>): (m: nat)
    ensures m <= |ids|
    ensures m < |ids| ==> !HasStatus(statuses, ids[m])
    ensures forall j :: 0 <= j < m ==> HasStatus(statuses, ids[j])
    decreases |ids|
  {
    if ids == [] then 0
    else if !HasStatus(statuses, ids[0]) then 0
    else 1 + FirstMissing(statuses, ids[1..])
  }

  /** Moving statuses changes only their positions: ids and slugs stay where they were. */
  lemma PositionedKeepsKeys(statuses: seq<Status>, nextId: nat, ids: seq<int>)
    requires Wellformed(statuses, nextId)
    ensures Wellformed(Positioned(statuses, ids), nextId)
    ensures forall j :: 0 <= j < |statuses| ==>
              Positioned(statuses, ids)[j].termId == statuses[j].termId &&
              Positioned(statuses, ids)[j].slug == statuses[j].slug
  {
  }

  /** One step of the loop: the update for entry `k` extends the applied prefix by that entry. */
  lemma PositionStep(statuses: seq<Status>, nextId: nat, ids: seq<int>, k: nat)
    requires Wellformed(statuses, nextId) && k < |ids| && HasStatus(statuses, ids[k])
    ensures var o := UpdateOutcome(Positioned(statuses, ids[..k]), ids[k], PositionOnly(k + 1));
            o.result.Ok? && o.statuses == Positioned(statuses, ids[..k + 1])
  {
    var p := Positioned(statuses, ids[..k]);
    var i := IndexOf(statuses, ids[k]);
    PositionedKeepsKeys(statuses, nextId, ids[..k]);
    IndexOfStored(p, nextId, i);
    var s := ApplyArgs(p[i], PositionOnly(k + 1));
    assert !SlugHeldByOther(p, s.slug, ids[k]) by {
      forall q | 0 <= q < |p| && p[q].slug == s.slug
        ensures p[q].termId == ids[k]
      {
        assert q == i;
      }
    }
    assert ids[..k + 1][..k] == ids[..k];
    var moved := p[i := s];
    var next := Positioned(statuses, ids[..k + 1]);
    forall j | 0 <= j < |statuses|
      ensures moved[j] == next[j]
    {
      if j != i {
        assert statuses[j].termId != ids[k];
      }
    }
  }

  /** From entry `k` on, with the entries before it applied, the loop ends as the whole run does. */
  lemma {:induction false} ReorderFromPrefix(statuses: seq<Status>, nextId: nat, ids: seq<int>, k: nat)
    requires Wellformed(statuses, nextId) && k <= FirstMissing(statuses, ids)
    ensures var m := FirstMissing(statuses, ids);
            ReorderFrom(Positioned(statuses, ids[..k]), ids, k) ==
            ReorderOutcome(if m < |ids| then Some(NoSuchStatus) else None, Positioned(statuses, ids[..m]))
    decreases |ids| - k
  {
    var m := FirstMissing(statuses, ids);
    PositionedKeepsKeys(statuses, nextId, ids[..k]);
    if k == m {
      if m == |ids| {
        assert ids[..k] == ids;
      }
    } else {
      PositionStep(statuses, nextId, ids, k);
      ReorderFromPrefix(statuses, nextId, ids, k + 1);
    }
  }

  /**
   * The whole reorder: the entries before the first that names no status are
   * applied in order, a status named twice keeping the later position, and
   * the entries from that one on are skipped; the registry's refusal is the
   * outcome when there is such an entry.
   */
  lemma ReorderApplies(statuses: seq<Status>, nextId: nat, ids: seq<int>)
    requires Wellformed(statuses, nextId)
    ensures var m := FirstMissing(statuses, ids);
            ReorderFrom(statuses, ids, 0) ==
            ReorderOutcome(if m < |ids| then Some(NoSuchStatus) else None, Positioned(statuses, ids[..m]))
  {
    assert Positioned(statuses, ids[..0]) == statuses;
    ReorderFromPrefix(statuses, nextId, ids, 0);
  }

  /** A payload the validate callback accepts, once sanitized, reorders without a refusal. */
  lemma ValidatedReorderSucceeds(statuses: seq<Status>, nextId: nat, ids: seq<int>, sanitized: seq<int>)
    requires Wellformed(statuses, nextId) && PositionsValid(statuses, PositionList(ids))
    requires |sanitized| == |ids| && forall k :: 0 <= k < |ids| ==> sanitized[k] == Absint(ids[k])
    ensures ReorderFrom(statuses, sanitized, 0) == ReorderOutcome(None, Positioned(statuses, sanitized))
  {
    ReorderApplies(statuses, nextId, sanitized);
    var m := FirstMissing(statuses, sanitized);
    if m < |sanitized| {
      assert false;
    }
    assert sanitized[..m] == sanitized;
  }

  /** A payload naming every status gives each the place after the last entry naming it, all places distinct. */
  lemma PositionedByFullPayload(statuses: seq<Status>, nextId: nat, ids: seq<int>)
    requires Wellformed(statuses, nextId)
    requires |ids| == |statuses|
    requires forall j :: 0 <= j < |statuses| ==> statuses[j].termId in ids
    ensures forall j :: 0 <= j < |statuses| ==>
              0 <= LastIndex(ids, statuses[j].termId) &&
              Positioned(statuses, ids)[j].position == LastIndex(ids, statuses[j].termId) + 1
    ensures forall i, j :: 0 <= i < j < |statuses| ==>
              Positioned(statuses, ids)[i].position != Positioned(statuses, ids)[j].position
  {
    var p := Positioned(statuses, ids);
    forall j | 0 <= j < |statuses|
      ensures 0 <= LastIndex(ids, statuses[j].termId)
    {
      var q :| 0 <= q < |ids| && ids[q] == statuses[j].termId;
    }
    forall i, j | 0 <= i < j < |statuses|
      ensures p[i].position != p[j].position
    {
      assert statuses[i].termId != statuses[j].termId;
    }
  }

  /** A payload every entry of which names a status is applied whole, without a refusal. */
  lemma CompleteReorder(statuses: seq<Status>, nextId: nat, ids: seq<int>)
    requires Wellformed(statuses, nextId)
    requires forall k :: 0 <= k < |ids| ==> HasStatus(statuses, ids[k])
    ensures ReorderFrom(statuses, ids, 0) == ReorderOutcome(None, Positioned(statuses, ids))
  {
    ReorderApplies(statuses, nextId, ids);
    if FirstMissing(statuses, ids) < |ids| {
      assert false;
    }
    assert ids[..|ids|] == ids;
  }

  /** Listed by the places a payload naming every status gave them, the statuses follow the payload. */
  lemma ListedFollowsPayload(statuses: seq<Status>, nextId: nat, ids: seq<int>)
    requires Wellformed(statuses, nextId)
    requires |ids| == |statuses|
    requires forall j :: 0 <= j < |statuses| ==> statuses[j].termId in ids
    ensures |ByPosition(Positioned(statuses, ids))| == |ids|
    ensures forall k :: 0 <= k < |ids| ==> ByPosition(Positioned(statuses, ids))[k].termId == ids[k]
  {
    var p := Positioned(statuses, ids);
    PositionedByFullPayload(statuses, nextId, ids);
    ByPositionExact(p);
    var listed := ByPosition(p);
    forall k | 0 <= k < |ids|
      ensures listed[k].termId == ids[k]
    {
      assert listed[k] in multiset(p);
      var j :| 0 <= j < |p| && p[j] == listed[k];
      assert LastIndex(ids, statuses[j].termId) == k;
    }
  }

  /**
   * A complete reorder, whose payload names every status and only statuses,
   * ends without a refusal, and the statuses as `get_custom_statuses` lists
   * them then follow the payload: entry `k` names the `k`-th status.
   */
  lemma ReorderAnswerFollowsPayload(statuses: seq<Status>, nextId: nat, ids: seq<int>)
    requires Wellformed(statuses, nextId)
    requires |ids| == |statuses|
    requires forall k :: 0 <= k < |ids| ==> HasStatus(statuses, ids[k])
    requires forall j :: 0 <= j < |statuses| ==> statuses[j].termId in ids
    ensures ReorderFrom(statuses, ids, 0).failure.None?
    ensures var listed := ByPosition(ReorderFrom(statuses, ids, 0).statuses);
            |listed| == |ids| && forall k :: 0 <= k < |ids| ==> listed[k].termId == ids[k]
  {
    CompleteReorder(statuses, nextId, ids);
    ListedFollowsPayload(statuses, nextId, ids);
  }

  // ---------------------------------------------------------------------------
  // The handlers

  /**
   * `handle_create_status`: the first failing check is the answer and nothing
   * is added; otherwise the registry's add, under the sanitized name and the
   * slug derived from the name, is the answer. That add appends the status
   * whenever the name has a visible character and the slug is free.
   */
  method HandleCreate(registry: Registry, sanitizers: Sanitizers, nameParam: string, description: string,
                      isReviewRequired: bool) returns (r: Result<Status, Failure>)
    requires registry.Valid()
    modifies registry
    ensures registry.Valid()
    ensures var name := sanitizers.text(nameParam);
            var slug := sanitizers.title(nameParam);
            var check := CreateCheck(old(registry.statuses), registry.restricted, name, slug);
            var o := AddOutcome(old(registry.statuses), old(registry.nextId), name, slug, description, isReviewRequired);
            if check.Some? then
              r == Err(Invalid(check.value)) &&
              registry.statuses == old(registry.statuses) && registry.nextId == old(registry.nextId)
            else
              r == Respond(o.result) && registry.statuses == o.statuses &&
              registry.nextId == (if r.Ok? then old(registry.nextId) + 1 else old(registry.nextId))
    ensures var name := sanitizers.text(nameParam);
            var slug := sanitizers.title(nameParam);
            var added := Status(old(registry.nextId), name, slug, description, |old(registry.statuses)| + 1,
                                isReviewRequired);
            CreateCheck(old(registry.statuses), registry.restricted, name, slug).None? &&
            HasVisibleChar(name) && HasVisibleChar(slug) ==>
              r == Ok(added) && registry.statuses == old(registry.statuses) + [added]
  {
    var name := sanitizers.text(nameParam);
    var slug := sanitizers.title(nameParam);
    var check := CreateCheck(registry.statuses, registry.restricted, name, slug);
    if check.Some? {
      return Err(Invalid(check.value));
    }
    CreateAcceptedIsAdded(registry.statuses, registry.nextId, registry.restricted, name, slug, description,
                          isReviewRequired);
    var added := registry.Add(name, slug, description, isReviewRequired);
    r := Respond(added);
  }

  /**
   * `handle_update_status`: the first failing check is the answer and nothing
   * is written; otherwise the registry's update, which an existing status
   * passes whenever the new name has a visible character.
   */
  method HandleUpdate(registry: Registry, sanitizers: Sanitizers, id: nat, nameParam: string, description: string,
                      isReviewRequired: bool) returns (r: Result<Status, Failure>)
    requires registry.Valid()
    modifies registry
    ensures registry.Valid() && registry.nextId == old(registry.nextId)
    ensures var name := sanitizers.text(nameParam);
            var slug := sanitizers.title(nameParam);
            var check := UpdateCheck(old(registry.statuses), registry.restricted, id, name, slug);
            var o := UpdateOutcome(old(registry.statuses), id, UpdateArgs(name, slug, description, isReviewRequired));
            if check.Some? then r == Err(Invalid(check.value)) && registry.statuses == old(registry.statuses)
            else r == Respond(o.result) && registry.statuses == o.statuses &&
                 (HasStatus(old(registry.statuses), id) && HasVisibleChar(name) ==> r.Ok?)
  {
    var name := sanitizers.text(nameParam);
    var slug := sanitizers.title(nameParam);
    var check := UpdateCheck(registry.statuses, registry.restricted, id, name, slug);
    if check.Some? {
      return Err(Invalid(check.value));
    }
    if HasStatus(registry.statuses, id) {
      UpdateAcceptedSucceeds(registry.statuses, registry.nextId, registry.restricted, id, name, slug, description,
                             isReviewRequired);
    }
    var updated := registry.Update(id, UpdateArgs(name, slug, description, isReviewRequired));
    r := Respond(updated);
  }

  /** `handle_delete_status`: an id with no status is an error and nothing is deleted; otherwise the registry deletes it. */
  method HandleDelete(registry: Registry, id: nat) returns (r: Result<bool, Failure>)
    requires registry.Valid()
    modifies registry
    ensures registry.Valid() && registry.nextId == old(registry.nextId)
    ensures !HasStatus(old(registry.statuses), id) ==>
              r == Err(Invalid(MISSING_STATUS_MESSAGE)) && registry.statuses == old(registry.statuses)
    ensures HasStatus(old(registry.statuses), id) ==>
              r == Ok(true) && registry.statuses == DeleteOutcome(old(registry.statuses), id).statuses &&
              ById(registry.statuses, id).None?
  {
    if ById(registry.statuses, id).None? {
      return Err(Invalid(MISSING_STATUS_MESSAGE));
    }
    DeleteKeepsWellformed(registry.statuses, registry.nextId, id);
    var deleted := registry.Delete(id);
    r := Respond(deleted);
  }

  /**
   * `handle_reorder_status`: a payload that is not an array is an error;
   * otherwise entry `k` moves its status to position `k + 1`, in order, and
   * the first refusal is the answer, earlier moves kept. On success the
   * answer is every status, as `get_custom_statuses` lists them: ordered by
   * position.
   */
  method HandleReorder(registry: Registry, payload: Payload) returns (r: Result<seq<Status>, Failure>)
    requires registry.Valid()
    modifies registry`statuses
    ensures registry.Valid()
    ensures payload.NotAnArray? ==>
              r == Err(Invalid(ORDER_NOT_ARRAY_MESSAGE)) && registry.statuses == old(registry.statuses)
    ensures payload.PositionList? ==>
              var o := ReorderFrom(old(registry.statuses), payload.ids, 0);
              registry.statuses == o.statuses &&
              (if o.failure.Some? then r == Err(Refused(o.failure.value)) else r == Ok(ByPosition(registry.statuses)))
  {
    if !payload.PositionList? {
      return Err(Invalid(ORDER_NOT_ARRAY_MESSAGE));
    }
    var ids := payload.ids;
    for k := 0 to |ids|
      invariant registry.Valid()
      invariant ReorderFrom(registry.statuses, ids, k) == ReorderFrom(old(registry.statuses), ids, 0)
    {
      ghost var before := registry.statuses;
      var position := Absint(k) + 1;
      assert position == k + 1;
      var updated := registry.Update(ids[k], PositionOnly(position));
      if updated.Err? {
        return Err(Refused(updated.error));
      }
      ReorderFromAccepted(before, ids, k);
    }
    r := Ok(registry.GetCustomStatuses());
  }
}

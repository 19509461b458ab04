/**
 * The editorial metadata registry: the term store holding the metadata
 * fields, the memoised ordered view of them, and the post meta recorded under
 * their keys. Insert, update and delete write to the store and clear the
 * memo; reads rebuild it when it is empty.
 *
 * The term store itself belongs to WordPress. Its insert, update and delete
 * are modelled here by the few rules the registry depends on: a name that
 * trims to nothing is refused, an empty slug is derived from the name by the
 * `sanitizeTitle` the registry is built with, and a slug held by another term
 * is refused. New terms receive consecutive ids.
 */
module EditorialMetadata {
  import opened Wrappers
  import opened Codec
  import opened PhpText
  import opened MetadataTerm
  import opened TermOrdering
  import opened TermStore

  /** The error a write can end with (the code of the `WP_Error`). */
  datatype TermError =
    | Invalid(message: string)
    | EmptyTermName
    | TermExists
    | DuplicateTermSlug

  const MISSING_TERM_MESSAGE: string := "Editorial metadata term doesn't exist."

  /** The slug the term store gives a term: the supplied one, or one derived from the name when it is PHP-empty. */
  function EffectiveSlug(sanitizeTitle: string -> string, name: string, slug: string): (r: string)
    ensures !PhpEmpty(slug) ==> r == slug
    ensures PhpEmpty(slug) ==> r == sanitizeTitle(name)
  {
    if PhpEmpty(slug) then sanitizeTitle(name) else slug
  }

  /** Whether a record other than the one with id `id` holds slug `slug`. */
  predicate SlugHeldByOther(store: seq<RawTerm>, slug: string, id: nat) {
    exists i :: 0 <= i < |store| && store[i].slug == slug && store[i].termId != id
  }

  /** Whether any record holds slug `slug`. */
  predicate SlugHeld(store: seq<RawTerm>, slug: string) {
    exists i :: 0 <= i < |store| && store[i].slug == slug
  }

  /** The term a successful insert of `args` creates, given the store size and the new id. */
  function InsertedTerm(args: TermArgs, count: nat, id: nat, slug: string): (t: Term)
    ensures t.termId == id && t.slug == slug
    ensures t.name == args.name.GetOr("")
    ensures t.position == args.position.GetOr(At(count + 1))
    ensures t.description == args.description.GetOr("") && t.metaType == args.metaType.GetOr("")
    ensures t.metaKey == PostmetaKey(t.metaType, id)
  {
    var metaType := args.metaType.GetOr("");
    Term(id, args.name.GetOr(""), slug, args.description.GetOr(""), args.position.GetOr(At(count + 1)),
         metaType, PostmetaKey(metaType, id))
  }

  /**
   * What the term store keeps true of its records: distinct ids below the next
   * id, names that do not trim to nothing, and non-empty distinct slugs.
   */
  ghost predicate StoreValid(store: seq<RawTerm>, nextId: nat) {
    && StoreIdsDistinct(store)
    && (forall i :: 0 <= i < |store| ==> store[i].termId < nextId)
    && (forall i :: 0 <= i < |store| ==> HasVisibleChar(store[i].name))
    && (forall i :: 0 <= i < |store| ==> !PhpEmpty(store[i].slug))
    && (forall i, j :: 0 <= i < j < |store| ==> store[i].slug != store[j].slug)
  }

  /** `sanitize_title` never yields a PHP-empty slug. */
  ghost predicate SlugMaker(sanitizeTitle: string -> string) {
    forall name :: !PhpEmpty(sanitizeTitle(name))
  }

  /** Replacing a record by one with the same id, a visible name and a slug no other record holds keeps the store's guarantees. */
  lemma ReplaceKeepsValid(store: seq<RawTerm>, nextId: nat, k: nat, raw: RawTerm)
    requires StoreValid(store, nextId) && k < |store| && raw.termId == store[k].termId
    requires HasVisibleChar(raw.name) && !PhpEmpty(raw.slug) && !SlugHeldByOther(store, raw.slug, raw.termId)
    ensures StoreValid(store[k := raw], nextId)
  {
    var s := store[k := raw];
    forall i, j | 0 <= i < j < |s|
      ensures s[i].slug != s[j].slug
    {
      if i == k {
        assert store[j].termId != raw.termId;
      } else if j == k {
        assert store[i].termId != raw.termId;
      }
    }
  }

  /** Replacing a record by one with the same id keeps the ids distinct. */
  lemma IdsKeptByReplace(store: seq<RawTerm>, k: nat, raw: RawTerm)
    requires StoreIdsDistinct(store) && k < |store| && raw.termId == store[k].termId
    ensures StoreIdsDistinct(store[k := raw])
  {
  }

  /** Appending a record with a fresh id, a visible name and an unused slug keeps the store's guarantees. */
  lemma AppendKeepsValid(store: seq<RawTerm>, nextId: nat, raw: RawTerm)
    requires StoreValid(store, nextId) && raw.termId == nextId
    requires HasVisibleChar(raw.name) && !PhpEmpty(raw.slug) && !SlugHeld(store, raw.slug)
    ensures StoreValid(store + [raw], nextId + 1)
  {
    var s := store + [raw];
    forall i, j | 0 <= i < j < |s|
      ensures s[i].termId != s[j].termId && s[i].slug != s[j].slug
    {
      if j == |store| {
        assert s[i] == store[i];
      }
    }
  }

  /** A record appended under an unused slug is the only holder of that slug. */
  lemma AppendedSlugOwnOnly(store: seq<RawTerm>, raw: RawTerm)
    requires !SlugHeld(store, raw.slug)
    ensures !SlugHeldByOther(store + [raw], raw.slug, raw.termId)
  {
    var s := store + [raw];
    forall i | 0 <= i < |s| && s[i].slug == raw.slug
      ensures s[i].termId == raw.termId
    {
    }
  }

  /** Replacing the last element of `a + [x]` gives `a + [y]`. */
  lemma ReplaceLast<T>(a: seq<T>, x: T, y: T)
    ensures (a + [x])[|a| := y] == a + [y]
  {
    assert forall i :: 0 <= i < |a| ==> (a + [x])[|a| := y][i] == a[i];
  }

  /** Removing a record keeps the store's guarantees. */
  lemma RemoveKeepsValid(store: seq<RawTerm>, nextId: nat, k: nat)
    requires StoreValid(store, nextId) && k < |store|
    ensures StoreValid(Remove(store, k), nextId)
  {
    RemoveKeepsIdsDistinct(store, k);
    var r := Remove(store, k);
    forall a, b | 0 <= a < b < |r|
      ensures r[a].slug != r[b].slug
    {
      var a0 := if a < k then a else a + 1;
      var b0 := if b < k then b else b + 1;
      assert r[a] == store[a0] && r[b] == store[b0];
    }
  }

  /** The decoded record with id `id`, if the store holds one. */
  function LookupId(store: seq<RawTerm>, id: nat): (r: Option<Term>)
    ensures r.Some? ==> r.value.termId == id
  {
    if HasId(store, id) then Some(Decorate(store[IdIndex(store, id)])) else None
  }

  /** What a write leaves behind: its result and the new store. */
  datatype Outcome = Outcome(result: Result<Term, TermError>, store: seq<RawTerm>)

  /**
   * `update_editorial_metadata_term` on a store: a missing id is an error and
   * nothing is written. Otherwise the supplied arguments are merged over the
   * term's current values (the `meta_key` it carries included), everything is
   * packed into the description and written back, unless the term store
   * refuses the name or the slug.
   */
  ghost function UpdateSpec(store: seq<RawTerm>, sanitizeTitle: string -> string, id: nat, args: TermArgs): Outcome {
    if !HasId(store, id) then Outcome(Err(Invalid(MISSING_TERM_MESSAGE)), store)
    else
      var j := IdIndex(store, id);
      var t := Merge(Decorate(store[j]), args);
      var slug := EffectiveSlug(sanitizeTitle, t.name, t.slug);
      if !HasVisibleChar(t.name) then Outcome(Err(EmptyTermName), store)
      else if SlugHeldByOther(store, slug, id) then Outcome(Err(DuplicateTermSlug), store)
      else Outcome(Ok(t.(slug := slug)), store[j := WriteBack(t, slug)])
  }

  /** An accepted update reads back, by id, as the term it answered with. */
  lemma UpdateReadsBack(store: seq<RawTerm>, nextId: nat, sanitizeTitle: string -> string, id: nat, args: TermArgs)
    requires StoreValid(store, nextId)
    ensures var o := UpdateSpec(store, sanitizeTitle, id, args);
            o.result.Ok? ==> LookupId(o.store, id) == Some(o.result.value)
  {
    if HasId(store, id) {
      var k := IdIndex(store, id);
      var t := Merge(Decorate(store[k]), args);
      var slug := EffectiveSlug(sanitizeTitle, t.name, t.slug);
      var raw := WriteBack(t, slug);
      IdsKeptByReplace(store, k, raw);
      IdIndexOfStored(store[k := raw], k);
    }
  }

  /**
   * `insert_editorial_metadata_term` on a store: the name defaults to the
   * empty string and the position to one past the number of terms; the term
   * store refuses an empty name and a slug already in use; otherwise the new
   * term is appended under the next id, with every attribute and its post-meta
   * key packed into its description.
   */
  ghost function InsertSpec(store: seq<RawTerm>, nextId: nat, sanitizeTitle: string -> string, args: TermArgs): Outcome {
    var name := args.name.GetOr("");
    var slug := EffectiveSlug(sanitizeTitle, name, args.slug.GetOr(""));
    if !HasVisibleChar(name) then Outcome(Err(EmptyTermName), store)
    else if SlugHeld(store, slug) then Outcome(Err(TermExists), store)
    else
      var t := InsertedTerm(args, |store|, nextId, slug);
      Outcome(Ok(t), store + [WriteBack(t, slug)])
  }

  /** The attributes an insert packs into the new record: no post-meta key yet, since the id is not known. */
  function InsertedAttrs(args: TermArgs, count: nat): Attrs {
    Attrs(args.description.GetOr(""), args.position.GetOr(At(count + 1)), args.metaType.GetOr(""), None)
  }

  /**
   * The argument-less update an insert runs on its new record completes it:
   * the record is rewritten with its post-meta key packed in, and reads back as
   * the inserted term.
   */
  lemma InsertThenUpdate(store: seq<RawTerm>, nextId: nat, sanitizeTitle: string -> string, args: TermArgs)
    requires StoreValid(store, nextId) && SlugMaker(sanitizeTitle)
    requires var slug := EffectiveSlug(sanitizeTitle, args.name.GetOr(""), args.slug.GetOr(""));
             HasVisibleChar(args.name.GetOr("")) && !SlugHeld(store, slug)
    ensures var slug := EffectiveSlug(sanitizeTitle, args.name.GetOr(""), args.slug.GetOr(""));
            var raw := RawTerm(nextId, args.name.GetOr(""), slug, Encode(InsertedAttrs(args, |store|)));
            var t := InsertedTerm(args, |store|, nextId, slug);
            && UpdateSpec(store + [raw], sanitizeTitle, nextId, NoArgs) == Outcome(Ok(t), store + [WriteBack(t, slug)])
            && LookupId(store + [WriteBack(t, slug)], nextId) == Some(t)
  {
    var name := args.name.GetOr("");
    var slug := EffectiveSlug(sanitizeTitle, name, args.slug.GetOr(""));
    var raw := RawTerm(nextId, name, slug, Encode(InsertedAttrs(args, |store|)));
    var t := InsertedTerm(args, |store|, nextId, slug);
    var s1 := store + [raw];
    var s2 := store + [WriteBack(t, slug)];
    AppendKeepsValid(store, nextId, raw);
    IdIndexOfStored(s1, |store|);
    assert Decorate(raw) == t;
    MergeNoArgs(t);
    AppendedSlugOwnOnly(store, raw);
    ReplaceLast(store, raw, WriteBack(t, slug));
    AppendKeepsValid(store, nextId, WriteBack(t, slug));
    IdIndexOfStored(s2, |store|);
  }

  /** An update with no arguments is accepted and changes nothing a reader can see. */
  lemma UpdateNoArgsKeepsView(store: seq<RawTerm>, nextId: nat, sanitizeTitle: string -> string, id: nat)
    requires StoreValid(store, nextId) && HasId(store, id)
    ensures UpdateSpec(store, sanitizeTitle, id, NoArgs).result == Ok(Decorate(store[IdIndex(store, id)]))
    ensures ViewOf(UpdateSpec(store, sanitizeTitle, id, NoArgs).store) == ViewOf(store)
  {
    var k := IdIndex(store, id);
    var t := Decorate(store[k]);
    MergeNoArgs(t);
    assert !SlugHeldByOther(store, t.slug, id) by {
      forall q | 0 <= q < |store| && store[q].slug == t.slug
        ensures store[q].termId == id
      {
        assert q == k;
      }
    }
    var s1 := store[k := WriteBack(t, t.slug)];
    assert DecorateAll(s1) == DecorateAll(store);
  }

  /**
   * Changing a term's type leaves its post-meta key behind: the key it keeps
   * is the one derived from the old type, which differs from the key derived
   * from the new one (the key a later delete purges).
   */
  lemma StaleKeyAfterTypeChange(store: seq<RawTerm>, sanitizeTitle: string -> string, id: nat, metaType: string)
    requires HasId(store, id)
    requires var t := Decorate(store[IdIndex(store, id)]);
             t.metaKey == PostmetaKey(t.metaType, id) && metaType != t.metaType
    ensures var o := UpdateSpec(store, sanitizeTitle, id, TermArgs(None, None, None, None, Some(metaType), None));
            o.result.Ok? ==>
              o.result.value.metaType == metaType &&
              o.result.value.metaKey == Decorate(store[IdIndex(store, id)]).metaKey &&
              o.result.value.metaKey != PostmetaKey(metaType, id)
  {
    var t := Decorate(store[IdIndex(store, id)]);
    PostmetaKeyInjective(t.metaType, id, metaType, id);
  }

  /** Purging the post meta of the term with id `id` keeps the derived key of every other stored term. */
  lemma PurgeSparesOtherTerms(store: seq<RawTerm>, nextId: nat, id: nat, keys: set<string>)
    requires StoreValid(store, nextId) && HasId(store, id)
    ensures var purged := keys - {PostmetaKey(LookupId(store, id).value.metaType, id)};
            forall j :: 0 <= j < |store| && store[j].termId != id ==>
              (PostmetaKey(Decorate(store[j]).metaType, store[j].termId) in purged <==>
               PostmetaKey(Decorate(store[j]).metaType, store[j].termId) in keys)
  {
    var metaType := LookupId(store, id).value.metaType;
    forall j | 0 <= j < |store| && store[j].termId != id
      ensures PostmetaKey(Decorate(store[j]).metaType, store[j].termId) != PostmetaKey(metaType, id)
    {
      PostmetaKeyInjective(Decorate(store[j]).metaType, store[j].termId, metaType, id);
    }
  }

  /** Renumbering rewrites records in place: ids, names and slugs stay where they were. */
  lemma RenumberedKeepsKeys(rest: seq<RawTerm>, i: nat, nextId: nat)
    requires StoreValid(rest, nextId)
    ensures forall j :: 0 <= j < |rest| ==>
              RenumberedUpTo(rest, i)[j].termId == rest[j].termId &&
              RenumberedUpTo(rest, i)[j].name == rest[j].name &&
              RenumberedUpTo(rest, i)[j].slug == rest[j].slug
    ensures StoreValid(RenumberedUpTo(rest, i), nextId)
  {
    var s := RenumberedUpTo(rest, i);
    forall j | 0 <= j < |rest|
      ensures s[j].termId == rest[j].termId && s[j].name == rest[j].name && s[j].slug == rest[j].slug
    {
    }
  }

  /** The record of rank `i` in the ordered view, and its place in the store. */
  lemma RankedRecord(rest: seq<RawTerm>, i: nat) returns (j: nat)
    requires StoreIdsDistinct(rest) && i < |rest|
    ensures |ViewOf(rest)| == |rest|
    ensures j < |rest| && rest[j].termId == ViewOf(rest)[i].termId
    ensures Decorate(rest[j]) == ViewOf(rest)[i]
    ensures Rank(rest, rest[j].termId) == i
    ensures forall j' :: 0 <= j' < |rest| && j' != j ==> Rank(rest, rest[j'].termId) != i
  {
    ViewLength(rest);
    j := ViewEntryIsStored(rest, i);
    RankFacts(rest);
    ViewIdsDistinct(rest);
    var r := Rank(rest, rest[j].termId);
    assert ViewOf(rest)[r].termId == ViewOf(rest)[i].termId;
  }

  /** Moving the record of rank `i` to position `i + 1` extends the renumbered prefix by one rank. */
  lemma RenumberExtend(rest: seq<RawTerm>, i: nat, j: nat)
    requires j < |rest| && Rank(rest, rest[j].termId) == i
    requires forall j' :: 0 <= j' < |rest| && j' != j ==> Rank(rest, rest[j'].termId) != i
    ensures RenumberedUpTo(rest, i)[j := Moved(rest[j], i + 1)] == RenumberedUpTo(rest, i + 1)
  {
    var s1 := RenumberedUpTo(rest, i)[j := Moved(rest[j], i + 1)];
    var next := RenumberedUpTo(rest, i + 1);
    forall q | 0 <= q < |rest|
      ensures s1[q] == next[q]
    {
      if q != j {
        assert Rank(rest, rest[q].termId) != i;
      }
    }
  }

  /**
   * Step `i` of the renumbering after a delete: moving the term of rank `i` to
   * position `i + 1` is an update the term store accepts, and it extends the
   * renumbered prefix by one.
   */
  lemma RenumberStep(rest: seq<RawTerm>, nextId: nat, sanitizeTitle: string -> string, i: nat)
    requires StoreValid(rest, nextId) && i < |rest|
    ensures |ViewOf(rest)| == |rest|
    ensures UpdateSpec(RenumberedUpTo(rest, i), sanitizeTitle, ViewOf(rest)[i].termId, PositionArgs(i + 1)).store ==
            RenumberedUpTo(rest, i + 1)
  {
    var j := RankedRecord(rest, i);
    var id := rest[j].termId;
    var s := RenumberedUpTo(rest, i);
    RenumberedKeepsKeys(rest, i, nextId);
    assert s[j] == rest[j];
    IdIndexOfStored(s, j);
    var t := Merge(Decorate(s[j]), PositionArgs(i + 1));
    assert HasVisibleChar(t.name) && !PhpEmpty(t.slug);
    assert !SlugHeldByOther(s, t.slug, id) by {
      forall q | 0 <= q < |s| && s[q].slug == t.slug
        ensures s[q].termId == id
      {
        assert q == j;
      }
    }
    assert WriteBack(t, t.slug) == Moved(rest[j], i + 1);
    RenumberExtend(rest, i, j);
  }

  class Registry {
    /** The records of the term store, in the order the store returns them. */
    var store: seq<RawTerm>
    /** The memoised ordered view; empty means "not built". */
    var cache: seq<Term>
    /** The post-meta keys under which some post holds a value. */
    var postMeta: set<string>
    /** The id the next inserted term receives. */
    var nextId: nat
    /** WordPress `sanitize_title`, used for empty slugs. */
    const sanitizeTitle: string -> string

    ghost predicate Valid()
      reads this
    {
      && StoreValid(store, nextId)
      && SlugMaker(sanitizeTitle)
      && (cache != [] ==> cache == ViewOf(store))
    }

    /** The ordered view of the current records. */
    ghost function View(): seq<Term>
      reads this
    {
      ViewOf(store)
    }

    constructor(sanitizeTitle: string -> string, postMeta: set<string>)
      requires SlugMaker(sanitizeTitle)
      ensures Valid()
      ensures store == [] && cache == [] && this.postMeta == postMeta && nextId == 1
      ensures this.sanitizeTitle == sanitizeTitle
    {
      store := [];
      cache := [];
      this.postMeta := postMeta;
      nextId := 1;
      this.sanitizeTitle := sanitizeTitle;
    }

    // -------------------------------------------------------------------------
    // The term store's own writes

    /**
     * `wp_insert_term`: refuses a name that trims to nothing and a slug some
     * record already holds; otherwise appends a record under the next id and
     * answers that id.
     */
    method StoreInsert(name: string, slug: string, blob: Blob) returns (r: Result<nat, TermError>)
      requires StoreValid(store, nextId) && SlugMaker(sanitizeTitle)
      modifies this`store, this`nextId
      ensures StoreValid(store, nextId)
      ensures var s := EffectiveSlug(sanitizeTitle, name, slug);
              if !HasVisibleChar(name) then r == Err(EmptyTermName) && store == old(store) && nextId == old(nextId)
              else if SlugHeld(old(store), s) then r == Err(TermExists) && store == old(store) && nextId == old(nextId)
              else r == Ok(old(nextId)) && store == old(store) + [RawTerm(old(nextId), name, s, blob)] &&
                   nextId == old(nextId) + 1
    {
      TrimEmptyIff(name);
      if Trim(name) == "" {
        return Err(EmptyTermName);
      }
      var s := EffectiveSlug(sanitizeTitle, name, slug);
      if SlugHeld(store, s) {
        return Err(TermExists);
      }
      AppendKeepsValid(store, nextId, RawTerm(nextId, name, s, blob));
      store := store + [RawTerm(nextId, name, s, blob)];
      r := Ok(nextId);
      nextId := nextId + 1;
    }

    /**
     * `wp_update_term` for the record with id `id`: refuses a name that trims
     * to nothing and a slug another record holds; otherwise rewrites the
     * record in place and answers the slug it received.
     */
    method StoreUpdate(id: nat, name: string, slug: string, blob: Blob) returns (r: Result<string, TermError>)
      requires StoreValid(store, nextId) && SlugMaker(sanitizeTitle) && HasId(store, id)
      modifies this`store
      ensures StoreValid(store, nextId)
      ensures var s := EffectiveSlug(sanitizeTitle, name, slug);
              if !HasVisibleChar(name) then r == Err(EmptyTermName) && store == old(store)
              else if SlugHeldByOther(old(store), s, id) then r == Err(DuplicateTermSlug) && store == old(store)
              else r == Ok(s) && store == old(store)[IdIndex(old(store), id) := RawTerm(id, name, s, blob)]
    {
      TrimEmptyIff(name);
      if Trim(name) == "" {
        return Err(EmptyTermName);
      }
      var s := EffectiveSlug(sanitizeTitle, name, slug);
      if SlugHeldByOther(store, s, id) {
        return Err(DuplicateTermSlug);
      }
      ReplaceKeepsValid(store, nextId, IdIndex(store, id), RawTerm(id, name, s, blob));
      store := store[IdIndex(store, id) := RawTerm(id, name, s, blob)];
      r := Ok(s);
    }

    /** `wp_delete_term` for the record with id `id`: the record is removed. */
    method StoreDelete(id: nat) returns (r: bool)
      requires StoreValid(store, nextId) && HasId(store, id)
      modifies this`store
      ensures StoreValid(store, nextId)
      ensures r && store == Remove(old(store), IdIndex(old(store), id))
    {
      RemoveKeepsValid(store, nextId, IdIndex(store, id));
      store := Remove(store, IdIndex(store, id));
      r := true;
    }

    // -------------------------------------------------------------------------
    // The registry

    /**
     * `get_editorial_metadata_terms`: the memo when it is non-empty, otherwise
     * the ordered view, rebuilt from the store and memoised.
     */
    method GetTerms() returns (r: seq<Term>)
      requires Valid()
      modifies this`cache
      ensures Valid()
      ensures r == View()
      ensures old(cache) != [] ==> r == old(cache)
      ensures cache == r
    {
      if cache != [] {
        return cache;
      }
      r := OrderTerms(store);
      cache := r;
    }

    /**
     * `get_editorial_metadata_term_by`: nothing for a field other than id, slug
     * or name (without reading the terms); otherwise the first term of the
     * ordered view that matches.
     */
    method GetTermBy(field: string, value: Scalar) returns (r: Option<Term>)
      requires Valid()
      modifies this`cache
      ensures Valid()
      ensures r == FindBy(View(), field, value)
      ensures !SupportedField(field) ==> cache == old(cache)
    {
      if !SupportedField(field) {
        return None;
      }
      var terms := GetTerms();
      r := FindBy(terms, field, value);
    }

    /** Looking up a stored id finds its record; looking up any other id finds nothing. */
    method GetTermById(id: nat) returns (r: Option<Term>)
      requires Valid()
      modifies this`cache
      ensures Valid()
      ensures r == LookupId(store, id)
    {
      r := GetTermBy("id", IntVal(id));
      if HasId(store, id) {
        ViewFindsStored(store, IdIndex(store, id));
      } else {
        ViewMissesAbsent(store, id);
      }
    }

    /** `update_editorial_metadata_term`: the outcome `UpdateSpec` describes. */
    method Update(id: nat, args: TermArgs) returns (r: Result<Term, TermError>)
      requires Valid()
      modifies this`store, this`cache
      ensures Valid()
      ensures r == UpdateSpec(old(store), sanitizeTitle, id, args).result
      ensures store == UpdateSpec(old(store), sanitizeTitle, id, args).store
    {
      var prev := GetTermById(id);
      if prev.None? {
        return Err(Invalid(MISSING_TERM_MESSAGE));
      }
      cache := [];
      var t := Merge(prev.value, args);
      var written := StoreUpdate(id, t.name, t.slug, Encode(AttrsOf(t)));
      cache := [];
      if written.Err? {
        return Err(written.error);
      }
      ghost var k := IdIndex(old(store), id);
      assert store[k] == WriteBack(t, written.value);
      IdIndexOfStored(store, k);
      var updated := GetTermById(id);
      r := Ok(updated.value);
    }

    /** `insert_editorial_metadata_term`: the outcome `InsertSpec` describes; a new term takes the next id. */
    method Insert(args: TermArgs) returns (r: Result<Term, TermError>)
      requires Valid()
      modifies this`store, this`cache, this`nextId
      ensures Valid()
      ensures r == InsertSpec(old(store), old(nextId), sanitizeTitle, args).result
      ensures store == InsertSpec(old(store), old(nextId), sanitizeTitle, args).store
      ensures nextId == if r.Ok? then old(nextId) + 1 else old(nextId)
    {
      var terms := GetTerms();
      ViewLength(store);
      var attrs := InsertedAttrs(args, |terms|);
      var inserted := StoreInsert(args.name.GetOr(""), args.slug.GetOr(""), Encode(attrs));
      cache := [];
      if inserted.Err? {
        return Err(inserted.error);
      }
      InsertThenUpdate(old(store), old(nextId), sanitizeTitle, args);
      r := CompleteInsert(inserted.value);
    }

    /**
     * The end of an insert: the argument-less update that packs the post-meta
     * key into the new record, then the read-back by id.
     */
    method CompleteInsert(id: nat) returns (r: Result<Term, TermError>)
      requires Valid() && UpdateSpec(store, sanitizeTitle, id, NoArgs).result.Ok?
      modifies this`store, this`cache
      ensures Valid()
      ensures r == UpdateSpec(old(store), sanitizeTitle, id, NoArgs).result
      ensures store == UpdateSpec(old(store), sanitizeTitle, id, NoArgs).store
    {
      UpdateReadsBack(store, nextId, sanitizeTitle, id, NoArgs);
      var completed := Update(id, NoArgs);
      var found := GetTermById(id);
      r := Ok(found.value);
    }

    /**
     * `delete_editorial_metadata_term`: purges the post meta under the key
     * derived from the term's current type and id, removes the term, then
     * moves every remaining term, in the order of the rebuilt view, to
     * positions `1, 2, ...`.
     */
    method Delete(id: nat) returns (r: bool)
      requires Valid() && HasId(store, id)
      modifies this`store, this`cache, this`postMeta
      ensures Valid()
      ensures r
      ensures postMeta == old(postMeta) - {PostmetaKey(LookupId(old(store), id).value.metaType, id)}
      ensures var rest := Remove(old(store), IdIndex(old(store), id));
              store == RenumberedUpTo(rest, |rest|) && View() == Renumbered(ViewOf(rest))
    {
      ghost var rest := Remove(store, IdIndex(store, id));
      var term := GetTermById(id);
      var key := PostmetaKey(term.value.metaType, term.value.termId);
      postMeta := postMeta - {key};
      r := StoreDelete(id);
      assert store == rest;
      cache := [];
      Renumber();
    }

    /**
     * The renumbering that ends a delete: reads the ordered view and moves its
     * terms, in that order, to positions `1, 2, ...` by updates that supply
     * only the position.
     */
    method Renumber()
      requires Valid()
      modifies this`store, this`cache
      ensures Valid()
      ensures store == RenumberedUpTo(old(store), |old(store)|)
      ensures View() == Renumbered(ViewOf(old(store)))
    {
      var terms := GetTerms();
      ghost var rest := store;
      ViewLength(rest);
      var position := 1;
      for i := 0 to |terms|
        invariant Valid()
        invariant store == RenumberedUpTo(rest, i)
        invariant position == i + 1
      {
        MoveTo(rest, i, terms[i].termId, position);
        position := position + 1;
      }
      RenumberView(rest);
    }

    /** One step of the renumbering: the term of rank `i` in the view of `rest` moves to `position`, that is `i + 1`. */
    method MoveTo(ghost rest: seq<RawTerm>, ghost i: nat, id: nat, position: int)
      requires Valid() && StoreValid(rest, nextId) && i < |rest| && store == RenumberedUpTo(rest, i)
      requires |ViewOf(rest)| == |rest| && id == ViewOf(rest)[i].termId && position == i + 1
      modifies this`store, this`cache
      ensures Valid() && store == RenumberedUpTo(rest, i + 1)
    {
      RenumberStep(rest, nextId, sanitizeTitle, i);
      var moved := Update(id, PositionArgs(position));
    }
  }
}

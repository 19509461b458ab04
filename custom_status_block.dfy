/**
 * The helpers behind the editor's custom save button: finding a status by its
 * slug, finding the status that follows it, deciding whether the button is
 * shown, and labelling it. The statuses are the ordered list the page is
 * given; the last one is the end of the workflow.
 */
module CustomStatusBlock {
  import opened Wrappers

  /** A status as the editor sees it. */
  datatype StatusTerm = StatusTerm(slug: string, name: string)

  /** The settings the page is given: the post types the workflow applies to and the ordered statuses. */
  datatype Settings = Settings(supportedPostTypes: seq<string>, statusTerms: seq<StatusTerm>)

  const ELLIPSIS: char := '…'
  const SAVE_LABEL: string := "Save"
  const MOVE_TO_PREFIX: string := "Move to "
  /** How many characters of the next status's name fit on a narrow viewport. */
  const NARROW_NAME_LENGTH: nat := 7

  /** `findIndex` by slug: the index of the first status with slug `slug`, or -1. */
  function FindIndex(terms: seq<StatusTerm>, slug: string): (k: int)
    ensures -1 <= k < |terms|
    ensures k >= 0 ==> terms[k].slug == slug
    ensures forall j :: 0 <= j < |terms| && (k == -1 || j < k) ==> terms[j].slug != slug
    decreases |terms|
  {
    if terms == [] then -1
    else if terms[0].slug == slug then 0
    else
      var k := FindIndex(terms[1..], slug);
      if k == -1 then -1 else k + 1
  }

  /** `find` by slug: the first status whose slug is `slug`, or nothing. */
  function Find(terms: seq<StatusTerm>, slug: string): (r: Option<StatusTerm>)
    ensures r.None? ==> forall i :: 0 <= i < |terms| ==> terms[i].slug != slug
    ensures r.Some? ==> r.value.slug == slug && r.value in terms
    decreases |terms|
  {
    if terms == [] then None
    else if terms[0].slug == slug then Some(terms[0])
    else Find(terms[1..], slug)
  }

  /** `find` and `findIndex` agree: the status found is the one at the index found. */
  lemma {:induction false} FindAtFindIndex(terms: seq<StatusTerm>, slug: string)
    ensures FindIndex(terms, slug) == -1 ==> Find(terms, slug) == None
    ensures FindIndex(terms, slug) >= 0 ==> Find(terms, slug) == Some(terms[FindIndex(terms, slug)])
    decreases |terms|
  {
    if terms != [] && terms[0].slug != slug {
      FindAtFindIndex(terms[1..], slug);
    }
  }

  /** `getStatusTermFromSlug`: the first status with slug `slug`, or nothing. */
  function GetStatusTermFromSlug(settings: Settings, slug: string): (r: Option<StatusTerm>)
    ensures r.None? ==> forall i :: 0 <= i < |settings.statusTerms| ==> settings.statusTerms[i].slug != slug
    ensures r.Some? ==> exists i :: 0 <= i < |settings.statusTerms| && settings.statusTerms[i] == r.value &&
                                    r.value.slug == slug &&
                                    forall j :: 0 <= j < i ==> settings.statusTerms[j].slug != slug
  {
    FindAtFindIndex(settings.statusTerms, slug);
    Find(settings.statusTerms, slug)
  }

  /**
   * `getNextStatusTerm`: the status right after the first one with slug
   * `slug`; nothing when no status has that slug or the first that does is the
   * last.
   */
  function GetNextStatusTerm(settings: Settings, slug: string): (r: Option<StatusTerm>)
    ensures r.None? <==> forall i :: 0 <= i < |settings.statusTerms| - 1 ==>
                           settings.statusTerms[i].slug != slug ||
                           exists j :: 0 <= j < i && settings.statusTerms[j].slug == slug
    ensures r.Some? ==> exists i :: 0 <= i < |settings.statusTerms| - 1 &&
                                    settings.statusTerms[i].slug == slug &&
                                    (forall j :: 0 <= j < i ==> settings.statusTerms[j].slug != slug) &&
                                    r.value == settings.statusTerms[i + 1]
  {
    var terms := settings.statusTerms;
    var k := FindIndex(terms, slug);
    if k == -1 || k == |terms| - 1 then None else Some(terms[k + 1])
  }

  /** `slice(0, -1)`: every status but the last (none when there are none). */
  function AllButLast(terms: seq<StatusTerm>): (r: seq<StatusTerm>)
    ensures |terms| > 0 ==> r == terms[..|terms| - 1]
    ensures |terms| == 0 ==> r == []
  {
    if |terms| == 0 then [] else terms[..|terms| - 1]
  }

  /** `map(t => t.slug)`. */
  function Slugs(terms: seq<StatusTerm>): (r: seq<string>)
    ensures |r| == |terms| && forall i :: 0 <= i < |terms| ==> r[i] == terms[i].slug
  {
    seq(|terms|, i requires 0 <= i < |terms| => terms[i].slug)
  }

  /**
   * `isCustomSaveButtonEnabled`: never for an unsaved post; otherwise when the
   * post type is supported and the saved status is one of the statuses before
   * the last.
   */
  function IsCustomSaveButtonEnabled(settings: Settings, isUnsavedPost: bool, postType: string, slug: string): (r: bool)
    ensures isUnsavedPost ==> !r
    ensures r ==> postType in settings.supportedPostTypes
  {
    if isUnsavedPost then false
    else
      var isSupportedPostType := postType in settings.supportedPostTypes;
      var isSupportedStatusTerm := slug in Slugs(AllButLast(settings.statusTerms));
      isSupportedPostType && isSupportedStatusTerm
  }

  /** `truncateText`: text longer than `length` is cut to `length` characters and an ellipsis appended. */
  function TruncateText(text: string, length: nat): (r: string)
    ensures |text| <= length ==> r == text
    ensures |text| > length ==> |r| == length + 1 && r[..length] == text[..length] && r[length] == ELLIPSIS
    ensures |r| <= length + 1
  {
    if |text| > length then text[..length] + [ELLIPSIS] else text
  }

  /**
   * `getCustomSaveButtonText`: "Save" when there is no next status; otherwise
   * "Move to " and the next status's name, cut to seven characters on a narrow
   * viewport.
   */
  function GetCustomSaveButtonText(nextStatusTerm: Option<StatusTerm>, isWideViewport: bool): (r: string)
    ensures nextStatusTerm.None? ==> r == SAVE_LABEL
    ensures nextStatusTerm.Some? ==> |r| >= |MOVE_TO_PREFIX| && r[..|MOVE_TO_PREFIX|] == MOVE_TO_PREFIX
    ensures nextStatusTerm.Some? && isWideViewport ==> r == MOVE_TO_PREFIX + nextStatusTerm.value.name
    ensures nextStatusTerm.Some? && !isWideViewport ==>
              r == MOVE_TO_PREFIX + TruncateText(nextStatusTerm.value.name, NARROW_NAME_LENGTH) &&
              |r| <= |MOVE_TO_PREFIX| + NARROW_NAME_LENGTH + 1
  {
    if nextStatusTerm.None? then SAVE_LABEL
    else if isWideViewport then MOVE_TO_PREFIX + nextStatusTerm.value.name
    else MOVE_TO_PREFIX + TruncateText(nextStatusTerm.value.name, NARROW_NAME_LENGTH)
  }

  // ---------------------------------------------------------------------------
  // How the helpers relate

  /** The button is shown on a saved post exactly when the post type is supported and the status has a successor. */
  lemma EnabledIffHasNext(settings: Settings, postType: string, slug: string)
    ensures IsCustomSaveButtonEnabled(settings, false, postType, slug) <==>
              postType in settings.supportedPostTypes && GetNextStatusTerm(settings, slug).Some?
  {
    var terms := settings.statusTerms;
    var k := FindIndex(terms, slug);
    var prefix := AllButLast(terms);
    if slug in Slugs(prefix) {
      var i :| 0 <= i < |prefix| && Slugs(prefix)[i] == slug;
      assert terms[i].slug == slug;
      assert 0 <= k <= i;
    }
    if 0 <= k < |terms| - 1 {
      assert Slugs(prefix)[k] == slug;
    }
  }

  /** A shown button always has a next status to move to. */
  lemma EnabledHasNext(settings: Settings, postType: string, slug: string)
    requires IsCustomSaveButtonEnabled(settings, false, postType, slug)
    ensures GetNextStatusTerm(settings, slug).Some?
    ensures GetCustomSaveButtonText(GetNextStatusTerm(settings, slug), true) != SAVE_LABEL
  {
    EnabledIffHasNext(settings, postType, slug);
  }

  /** The next status is the one right after the status the slug finds. */
  lemma NextFollowsCurrent(settings: Settings, slug: string)
    requires GetNextStatusTerm(settings, slug).Some?
    ensures GetStatusTermFromSlug(settings, slug).Some?
    ensures exists i :: 0 <= i < |settings.statusTerms| - 1 &&
                        settings.statusTerms[i] == GetStatusTermFromSlug(settings, slug).value &&
                        settings.statusTerms[i + 1] == GetNextStatusTerm(settings, slug).value
  {
    FindAtFindIndex(settings.statusTerms, slug);
  }

  /** The last status has no successor, so a post saved in it shows the native button. */
  lemma LastHasNoNext(settings: Settings, postType: string)
    requires |settings.statusTerms| > 0
    requires var last := settings.statusTerms[|settings.statusTerms| - 1];
             forall i :: 0 <= i < |settings.statusTerms| - 1 ==> settings.statusTerms[i].slug != last.slug
    ensures var last := settings.statusTerms[|settings.statusTerms| - 1];
            GetNextStatusTerm(settings, last.slug).None? &&
            !IsCustomSaveButtonEnabled(settings, false, postType, last.slug)
  {
    var last := settings.statusTerms[|settings.statusTerms| - 1];
    EnabledIffHasNext(settings, postType, last.slug);
  }

  /** Truncating twice is truncating once: the ellipsis falls just past the cut. */
  lemma TruncateIdempotent(text: string, length: nat)
    ensures TruncateText(TruncateText(text, length), length) == TruncateText(text, length)
  {
    var once := TruncateText(text, length);
    if |text| > length {
      assert once[..length] == text[..length];
    }
  }
}

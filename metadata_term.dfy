/**
 * One editorial metadata field as the plugin sees it: the raw record the term
 * store keeps, the decoded term with its defaults filled in, the post-meta key
 * and arguments derived from it, the merge of update arguments and the lookup
 * by field.
 */
module MetadataTerm {
  import opened Wrappers
  import opened Codec
  import opened PhpText

  const METADATA_POSTMETA_KEY: string := "vw_editorial_meta"
  const SUPPORTED_METADATA_TYPES: seq<string> := ["checkbox", "text"]

  /** A record as the term store keeps it: the description field holds the packed attributes. */
  datatype RawTerm = RawTerm(termId: nat, name: string, slug: string, description: Blob)

  /** A record after its attributes have been unpacked onto it. */
  datatype Term = Term(
    termId: nat,
    name: string,
    slug: string,
    description: string,
    position: Position,
    metaType: string,
    metaKey: string)

  /**
   * The optional arguments of insert and update: a present field overrides the
   * default (insert) or the old value (update).
   */
  datatype TermArgs = TermArgs(
    position: Option<Position>,
    name: Option<string>,
    slug: Option<string>,
    description: Option<string>,
    metaType: Option<string>,
    metaKey: Option<string>)

  const NoArgs: TermArgs := TermArgs(None, None, None, None, None, None)

  /** The arguments that only move a term. */
  function PositionArgs(position: int): TermArgs {
    TermArgs(Some(At(position)), None, None, None, None, None)
  }

  // ---------------------------------------------------------------------------
  // Post-meta key and arguments

  /** The post-meta key of a term of type `metaType` with id `termId`: `vw_editorial_meta_{type}_{termId}`. */
  function PostmetaKey(metaType: string, termId: nat): (key: string)
  {
    METADATA_POSTMETA_KEY + "_" + metaType + "_" + NatToString(termId)
  }

  /** The index of the last `c` in `s`, or -1 when there is none. */
  function LastIndexOf(s: string, c: char): (k: int)
    ensures -1 <= k < |s|
    ensures k >= 0 ==> s[k] == c
    ensures forall j :: k < j < |s| ==> s[j] != c
    decreases |s|
  {
    if s == [] then -1
    else if s[|s| - 1] == c then |s| - 1
    else LastIndexOf(s[..|s| - 1], c)
  }

  /** An underscore-free tail does not move the last underscore. */
  lemma {:induction false} LastUnderscoreSkipsTail(x: string, d: string)
    requires forall i :: 0 <= i < |d| ==> d[i] != '_'
    ensures LastIndexOf(x + d, '_') == LastIndexOf(x, '_')
    decreases |d|
  {
    if d == [] {
      assert x + d == x;
    } else {
      assert (x + d)[..|x + d| - 1] == x + d[..|d| - 1];
      LastUnderscoreSkipsTail(x, d[..|d| - 1]);
    }
  }

  /** In `a + "_" + d` with an underscore-free tail `d`, the last underscore is the one after `a`. */
  lemma LastUnderscore(a: string, d: string)
    requires forall i :: 0 <= i < |d| ==> d[i] != '_'
    ensures LastIndexOf(a + "_" + d, '_') == |a|
  {
    LastUnderscoreSkipsTail(a + "_", d);
  }

  /** The key determines both the type and the id: distinct terms never share post meta. */
  lemma PostmetaKeyInjective(type1: string, id1: nat, type2: string, id2: nat)
    ensures PostmetaKey(type1, id1) == PostmetaKey(type2, id2) ==> type1 == type2 && id1 == id2
  {
    if PostmetaKey(type1, id1) == PostmetaKey(type2, id2) {
      var p := METADATA_POSTMETA_KEY + "_";
      var d1, d2 := NatToString(id1), NatToString(id2);
      assert PostmetaKey(type1, id1) == (p + type1) + "_" + d1;
      assert PostmetaKey(type2, id2) == (p + type2) + "_" + d2;
      var s := PostmetaKey(type1, id1);
      LastUnderscore(p + type1, d1);
      LastUnderscore(p + type2, d2);
      assert |p + type1| == |p + type2|;
      assert p + type1 == s[..|p + type1|] == p + type2;
      assert d1 == s[|p + type1| + 1..] == d2;
      assert type1 == (p + type1)[|p|..] == (p + type2)[|p|..] == type2;
      NatToStringInjective(id1, id2);
    }
  }

  /** The arguments the post meta of a term is registered with. */
  datatype PostmetaArgs = PostmetaArgs(argType: string, description: string, single: bool, showInRest: bool)

  /** `checkbox` meta is stored as a boolean, `text` meta as a string, anything else untyped (''). */
  function GetPostmetaArgs(t: Term): (a: PostmetaArgs)
    ensures a.argType == "boolean" <==> t.metaType == "checkbox"
    ensures a.argType == "string" <==> t.metaType == "text"
    ensures a.argType == "" <==> t.metaType !in SUPPORTED_METADATA_TYPES
    ensures a.description == t.description && a.single && a.showInRest
  {
    var argType := if t.metaType == "checkbox" then "boolean" else if t.metaType == "text" then "string" else "";
    PostmetaArgs(argType, t.description, true, true)
  }

  // ---------------------------------------------------------------------------
  // Unpacking a stored record

  /**
   * A stored record with its attributes unpacked. Plain text stays the
   * description and leaves the position unset; a missing type reads as the
   * empty string; a missing post-meta key is derived from type and id.
   */
  function Decorate(raw: RawTerm): (t: Term)
    ensures t.termId == raw.termId && t.name == raw.name && t.slug == raw.slug
    ensures Decode(raw.description).None? ==>
              t.description == raw.description.text && t.position == Unset && t.metaType == ""
    ensures Decode(raw.description).Some? ==>
              var a := Decode(raw.description).value;
              t.description == a.description && t.position == a.position && t.metaType == a.metaType
    ensures t.metaKey ==
              if Decode(raw.description).Some? && Decode(raw.description).value.metaKey.Some?
              then Decode(raw.description).value.metaKey.value
              else PostmetaKey(t.metaType, t.termId)
  {
    match Decode(raw.description)
    case None =>
      Term(raw.termId, raw.name, raw.slug, raw.description.text, Unset, "", PostmetaKey("", raw.termId))
    case Some(a) =>
      Term(raw.termId, raw.name, raw.slug, a.description, a.position, a.metaType,
           a.metaKey.GetOr(PostmetaKey(a.metaType, raw.termId)))
  }

  function DecorateAll(raws: seq<RawTerm>): (ts: seq<Term>)
    ensures |ts| == |raws|
    ensures forall i :: 0 <= i < |raws| ==> ts[i] == Decorate(raws[i])
  {
    seq(|raws|, i requires 0 <= i < |raws| => Decorate(raws[i]))
  }

  /** The attributes an update writes back for a term. */
  function AttrsOf(t: Term): Attrs {
    Attrs(t.description, t.position, t.metaType, Some(t.metaKey))
  }

  /** Writing a term's attributes back and reading them again gives the same term. */
  lemma DecorateAttrsOf(t: Term)
    ensures Decorate(RawTerm(t.termId, t.name, t.slug, Encode(AttrsOf(t)))) == t
  {
  }

  // ---------------------------------------------------------------------------
  // Update arguments

  /** `array_merge($old_args, $args)`: supplied fields override, omitted fields keep the old value. */
  function Merge(prev: Term, args: TermArgs): (r: Term)
    ensures r.termId == prev.termId
    ensures r.position == (if args.position.Some? then args.position.value else prev.position)
    ensures r.name == (if args.name.Some? then args.name.value else prev.name)
    ensures r.slug == (if args.slug.Some? then args.slug.value else prev.slug)
    ensures r.description == (if args.description.Some? then args.description.value else prev.description)
    ensures r.metaType == (if args.metaType.Some? then args.metaType.value else prev.metaType)
    ensures r.metaKey == (if args.metaKey.Some? then args.metaKey.value else prev.metaKey)
  {
    Term(prev.termId,
         args.name.GetOr(prev.name),
         args.slug.GetOr(prev.slug),
         args.description.GetOr(prev.description),
         args.position.GetOr(prev.position),
         args.metaType.GetOr(prev.metaType),
         args.metaKey.GetOr(prev.metaKey))
  }

  /** An update with no arguments leaves the term as it was. */
  lemma MergeNoArgs(t: Term)
    ensures Merge(t, NoArgs) == t
  {
  }

  // ---------------------------------------------------------------------------
  // Lookup by field

  /** A lookup value: an integer or a string. */
  datatype Scalar = IntVal(i: int) | StrVal(s: string)

  /**
   * PHP 8 `==` between the lookup value and a term's field: an integer and a
   * numeric string, or two numeric strings, compare as numbers; an integer and
   * any other string compare as the integer's decimal digits and the string;
   * two other strings compare as text.
   */
  predicate LooseEquals(a: Scalar, b: Scalar) {
    match (a, b)
    case (IntVal(x), IntVal(y)) => x == y
    case (StrVal(x), StrVal(y)) => if IsNumeric(x) && IsNumeric(y) then NumericValue(x) == NumericValue(y) else x == y
    case (IntVal(x), StrVal(y)) => if IsNumeric(y) then x as real == NumericValue(y) else IntToString(x) == y
    case (StrVal(x), IntVal(y)) => if IsNumeric(x) then NumericValue(x) == y as real else x == IntToString(y)
  }

  /** PHP's `==` does not depend on the order of its operands. */
  lemma LooseEqualsSymmetric(a: Scalar, b: Scalar)
    ensures LooseEquals(a, b) <==> LooseEquals(b, a)
  {
  }

  predicate SupportedField(field: string) {
    field == "id" || field == "slug" || field == "name"
  }

  /** Whether `t` has `value` in `field` (`id` looks at the term id). */
  predicate Matches(t: Term, field: string, value: Scalar) {
    if field == "id" then LooseEquals(IntVal(t.termId), value)
    else if field == "slug" then LooseEquals(StrVal(t.slug), value)
    else if field == "name" then LooseEquals(StrVal(t.name), value)
    else false
  }

  /** The index of the first term of `terms` matching, or `|terms|` when none does. */
  function MatchIndex(terms: seq<Term>, field: string, value: Scalar): (k: nat)
    ensures k <= |terms|
    ensures k < |terms| ==> Matches(terms[k], field, value)
    ensures forall j :: 0 <= j < k ==> !Matches(terms[j], field, value)
    decreases |terms|
  {
    if terms == [] then 0
    else if Matches(terms[0], field, value) then 0
    else 1 + MatchIndex(terms[1..], field, value)
  }

  /**
   * `get_editorial_metadata_term_by` on a given ordered list: an unsupported
   * field finds nothing; otherwise the first matching term in list order, or
   * nothing when no term matches.
   */
  function FindBy(terms: seq<Term>, field: string, value: Scalar): (r: Option<Term>)
    ensures !SupportedField(field) ==> r == None
    ensures r.None? ==> forall i :: 0 <= i < |terms| ==> !Matches(terms[i], field, value)
    ensures r.Some? ==>
              exists i :: 0 <= i < |terms| && terms[i] == r.value && Matches(terms[i], field, value) &&
                          forall j :: 0 <= j < i ==> !Matches(terms[j], field, value)
  {
    if !SupportedField(field) then None
    else
      var k := MatchIndex(terms, field, value);
      if k < |terms| then Some(terms[k]) else None
  }

  /** When ids are distinct, looking a term up by its id finds exactly that term. */
  lemma FindById(terms: seq<Term>, k: nat)
    requires k < |terms|
    requires forall i, j :: 0 <= i < j < |terms| ==> terms[i].termId != terms[j].termId
    ensures FindBy(terms, "id", IntVal(terms[k].termId)) == Some(terms[k])
  {
    var r := FindBy(terms, "id", IntVal(terms[k].termId));
    assert Matches(terms[k], "id", IntVal(terms[k].termId));
    var i :| 0 <= i < |terms| && terms[i] == r.value && Matches(terms[i], "id", IntVal(terms[k].termId)) &&
             forall j :: 0 <= j < i ==> !Matches(terms[j], "id", IntVal(terms[k].termId));
    assert terms[i].termId == terms[k].termId;
  }

  /**
   * Looking a term up by its id written as a string, with any count of
   * leading zeros (`"01"` for id 1), finds exactly that term, as PHP 8 `==`
   * compares the numeric string with the integer id by value.
   */
  lemma FindByZeroPaddedId(terms: seq<Term>, k: nat, z: nat)
    requires k < |terms|
    requires forall i, j :: 0 <= i < j < |terms| ==> terms[i].termId != terms[j].termId
    ensures FindBy(terms, "id", StrVal(Zeros(z) + NatToString(terms[k].termId))) == Some(terms[k])
  {
    var text := Zeros(z) + NatToString(terms[k].termId);
    ZeroPaddedValue(z, terms[k].termId);
    forall j | 0 <= j < |terms|
      ensures Matches(terms[j], "id", StrVal(text)) <==> terms[j].termId == terms[k].termId
    {
    }
    var r := FindBy(terms, "id", StrVal(text));
    assert Matches(terms[k], "id", StrVal(text));
    var i :| 0 <= i < |terms| && terms[i] == r.value && Matches(terms[i], "id", StrVal(text)) &&
             forall j :: 0 <= j < i ==> !Matches(terms[j], "id", StrVal(text));
    assert terms[i].termId == terms[k].termId;
  }
}

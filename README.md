# VIP Workflow: editorial metadata and custom statuses, in Dafny

This project models three parts of the VIP Workflow WordPress plugin and
proves properties of them.

- **Editorial metadata registry** (`editorial-metadata.php`). Editorial
  metadata fields are WordPress terms. The plugin packs each field's
  description, position, type and post-meta key into the term's description
  field. The model covers:
  - the ordered view of the fields, which the plugin memoises in a static
    cache;
  - lookup by id, slug or name;
  - insert, which ends with an argument-less update that stores the
    post-meta key;
  - update, which merges the supplied arguments over the old values;
  - delete, which purges post meta and then renumbers every remaining field
    to positions `1..N`;
  - the post-meta key and the registration arguments.

  The term store is a `seq<RawTerm>` in storage order, held by the class
  `EditorialMetadata.Registry` together with the cache, the recorded post-meta
  keys and the next id.
- **Custom status REST endpoint** (`custom-status-endpoint.php`). The model
  covers:
  - the validate and sanitize callbacks of `name`, `id` and
    `status_positions`;
  - the ordered checks that guard create and update;
  - delete;
  - the reorder loop, which stops at the first refusal.

  The handlers drive a `CustomStatus.Registry` object.
- **Editor helpers** (`custom-status-block.js`). The model covers:
  - finding a status by slug;
  - finding the status that follows it;
  - deciding whether the custom save button is shown;
  - truncating a name;
  - labelling the button.

Files:

| file | contents |
|---|---|
| `wrappers.dfy` | `Option`, `Result` |
| `php_text.dfy` | the PHP string functions used: `trim`, `empty`, `is_numeric`, `strtolower` on ASCII, `strlen` as UTF-8 byte count, `absint`, integer to decimal string |
| `codec.dfy` | the attributes packed into a term description, and their encoding |
| `metadata_term.dfy` | stored and decoded terms, the post-meta key and arguments, argument merge, lookup by field |
| `term_ordering.dfy` | the ordering loop of `get_editorial_metadata_terms` and its reference specification |
| `term_store.dfy` | lookup by id in the ordered view, write-back, and the effect of renumbering on the view |
| `editorial_metadata.dfy` | the registry class and the specifications of insert, update and delete |
| `custom_status.dfy` | the custom status registry the endpoint drives (behaviour assumed, see below) |
| `custom_status_endpoint.dfy` | the REST callbacks and handlers |
| `custom_status_block.dfy` | the editor helpers |

The WordPress term engine's insert, update and delete are modelled by the
class methods `StoreInsert`, `StoreUpdate` and `StoreDelete`, with these
rules:

- a name with no visible character once trimmed is refused (`empty_term_name`);
- a PHP-empty slug is replaced by `sanitize_title(name)`, which is a parameter
  and is assumed never to yield an empty slug;
- on insert, a slug any term holds is refused (a simplification: WordPress
  gives the new term a suffixed slug instead, see "Left out");
- on update, a slug another term holds is refused (`duplicate_term_slug`);
- new terms receive consecutive ids.

The custom status registry (`Custom_Status`) is not part of this model. Its
`add_custom_status`, `update_custom_status`, `delete_custom_status` and
`get_custom_status_by` are modelled by the behaviour the endpoint relies on:

- statuses have distinct ids, distinct slugs and names with a visible
  character;
- add refuses a name with no visible character (`empty_term_name`), then a
  used slug, and otherwise appends the status at the end under the next id;
- update refuses a missing id, then a merged name with no visible character,
  then a slug another status holds, and otherwise merges the supplied fields
  in place;
- delete refuses a missing id;
- `get_custom_statuses` lists the statuses ordered by position.

The statuses double as the taxonomy's terms for `term_exists`. It finds
nothing for a term with no visible character, and otherwise finds a term by
slug first and then by name.

## Model

| member | source | states |
|---|---|---|
| Codec.Encode | modules/editorial-metadata/editorial-metadata.php:385-392 | decoding what was encoded gives back the same attributes (description, position, type, meta key) |
| Codec.Decode | modules/editorial-metadata/editorial-metadata.php:239-245 | decoding fails exactly for a description that holds plain text rather than packed attributes |
| MetadataTerm.Decorate | modules/editorial-metadata/editorial-metadata.php:237-256 | unpacking a stored term: plain text stays the description with position `false` and empty type; packed attributes are copied onto the term; a missing `meta_key` is derived from type and id |
| MetadataTerm.DecorateAttrsOf | modules/editorial-metadata/editorial-metadata.php:373-392 | writing a term's attributes back and unpacking them again gives the same term |
| MetadataTerm.Merge | modules/editorial-metadata/editorial-metadata.php:373-382 | `array_merge` of old values and arguments: each supplied argument overrides, each omitted one keeps the old value, the id never changes |
| MetadataTerm.MergeNoArgs | modules/editorial-metadata/editorial-metadata.php:362-382 | an update with no arguments merges to the old term unchanged |
| MetadataTerm.PostmetaKeyInjective | modules/editorial-metadata/editorial-metadata.php:491-496 | the key `vw_editorial_meta_{type}_{id}` determines both the type and the id, so two terms or two types never share a key |
| MetadataTerm.GetPostmetaArgs | modules/editorial-metadata/editorial-metadata.php:454-481 | `checkbox` meta is registered as boolean and `text` meta as string, each in both directions; any other type is untyped; the description is the term's, single and shown in REST |
| MetadataTerm.FindBy | modules/editorial-metadata/editorial-metadata.php:287-304 | an unsupported field finds nothing; otherwise the result is the first matching term in list order, and nothing exactly when no term matches; a match is PHP 8 `==`, under which an integer and a numeric string, or two numeric strings, compare by value |
| MetadataTerm.FindById | modules/editorial-metadata/editorial-metadata.php:293-303 | in a list with distinct ids, looking a term up by its id finds exactly that term |
| MetadataTerm.FindByZeroPaddedId | modules/editorial-metadata/editorial-metadata.php:293-303 | looking a term up by its id written as a string with leading zeros (`"01"`) finds exactly that term |
| TermOrdering.OrderedViewSpec | modules/editorial-metadata/editorial-metadata.php:237-277 | the ordered view is a permutation of the stored terms; the placed prefix has truthy, strictly ascending positions and holds the first term met with each position; the rest are the other terms in storage order |
| TermOrdering.SortByKey | modules/editorial-metadata/editorial-metadata.php:266-277 | `ksort` then `array_values`: the values of the position map, least key first |
| TermOrdering.OrderTerms | modules/editorial-metadata/editorial-metadata.php:233-278 | the ordering loop (place by truthy, untaken position, else hold; sort; append the held terms) computes the ordered view of the decoded store |
| TermStore.ViewIdsDistinct | modules/editorial-metadata/editorial-metadata.php:237-278 | the ordered view of a store with distinct ids has distinct ids |
| TermStore.ViewFindsStored | modules/editorial-metadata/editorial-metadata.php:293-303 | looking up a stored term's id in the ordered view finds that term, decoded |
| TermStore.ViewMissesAbsent | modules/editorial-metadata/editorial-metadata.php:293-303 | looking up an id no stored term carries finds nothing |
| TermStore.WriteBack | modules/editorial-metadata/editorial-metadata.php:382-398 | the record an update writes keeps id and name, takes the slug the store gave it, and unpacks to the merged term |
| TermStore.RenumberedPositionsDistinct | modules/editorial-metadata/editorial-metadata.php:434-444 | after the renumbering no two terms share a position |
| TermStore.RenumberView | modules/editorial-metadata/editorial-metadata.php:434-444 | after the renumbering the ordered view is the old view in the same order, with positions exactly `1..N` |
| EditorialMetadata.EffectiveSlug | modules/editorial-metadata/editorial-metadata.php:338 | a non-empty supplied slug is kept; a PHP-empty one is derived from the name |
| EditorialMetadata.InsertedTerm | modules/editorial-metadata/editorial-metadata.php:312-352 | an inserted term has the new id, the defaults `''` for name, description and type, position one past the number of terms, and the key derived from its type and id |
| EditorialMetadata.UpdateReadsBack | modules/editorial-metadata/editorial-metadata.php:362-410 | an accepted update reads back, by id, as the term it answered with |
| EditorialMetadata.InsertThenUpdate | modules/editorial-metadata/editorial-metadata.php:343-352 | the argument-less update after an insert is accepted, packs the post-meta key into the new record, and the id then finds the inserted term |
| EditorialMetadata.UpdateNoArgsKeepsView | modules/editorial-metadata/editorial-metadata.php:362-410 | an update with no arguments is accepted, answers the current term and leaves the ordered view unchanged |
| EditorialMetadata.StaleKeyAfterTypeChange | modules/editorial-metadata/editorial-metadata.php:373-392 | changing a term's type keeps its old `meta_key`, which differs from the key derived from the new type |
| EditorialMetadata.PurgeSparesOtherTerms | modules/editorial-metadata/editorial-metadata.php:420-422 | purging the deleted term's key removes no other term's derived key |
| EditorialMetadata.RenumberedKeepsKeys | modules/editorial-metadata/editorial-metadata.php:440-444 | renumbering rewrites terms in place: ids, names and slugs stay, and the store's guarantees hold throughout |
| EditorialMetadata.RenumberStep | modules/editorial-metadata/editorial-metadata.php:440-444 | moving the term of rank `i` to position `i + 1` is an update the store accepts, and it extends the renumbered prefix by one |
| EditorialMetadata.Registry.constructor | modules/editorial-metadata/editorial-metadata.php:29 | an empty store with an empty cache |
| EditorialMetadata.Registry.StoreInsert | modules/editorial-metadata/editorial-metadata.php:338 | `wp_insert_term`: refuses an invisible name, then a used slug, leaving the store as it was; otherwise appends the record under the next id |
| EditorialMetadata.Registry.StoreUpdate | modules/editorial-metadata/editorial-metadata.php:398 | `wp_update_term`: refuses an invisible name, then a slug another term holds; otherwise rewrites the record in place |
| EditorialMetadata.Registry.StoreDelete | modules/editorial-metadata/editorial-metadata.php:424 | `wp_delete_term`: removes the record and keeps the store's guarantees |
| EditorialMetadata.Registry.GetTerms | modules/editorial-metadata/editorial-metadata.php:217-278 | answers the ordered view of the store; a non-empty cache is answered as is and is always that view; the cache is set to the answer |
| EditorialMetadata.Registry.GetTermBy | modules/editorial-metadata/editorial-metadata.php:287-304 | the first term of the ordered view that matches; an unsupported field answers nothing without touching the cache |
| EditorialMetadata.Registry.GetTermById | modules/editorial-metadata/editorial-metadata.php:287-304 | looking up a stored id finds its decoded record; any other id finds nothing |
| EditorialMetadata.Registry.Update | modules/editorial-metadata/editorial-metadata.php:362-411 | the result and new store are those of the update specification: a missing id is the "doesn't exist" error and writes nothing; a refused name or slug writes nothing |
| EditorialMetadata.Registry.Insert | modules/editorial-metadata/editorial-metadata.php:310-353 | the result and new store are those of the insert specification; the next id advances exactly when the insert succeeds |
| EditorialMetadata.Registry.CompleteInsert | modules/editorial-metadata/editorial-metadata.php:346-349 | the argument-less update of the new record, then the read-back by id |
| EditorialMetadata.Registry.Delete | modules/editorial-metadata/editorial-metadata.php:419-447 | purges exactly the key derived from the term's current type and id; the store becomes the remaining terms renumbered, and the view becomes the remaining view with positions `1..N` |
| EditorialMetadata.Registry.Renumber | modules/editorial-metadata/editorial-metadata.php:434-444 | after the loop every term sits at one past its place in the ordered view read before the loop |
| EditorialMetadata.Registry.MoveTo | modules/editorial-metadata/editorial-metadata.php:440-443 | one loop step: the update that supplies only the position extends the renumbered prefix |
| CustomStatus.ApplyArgs | modules/custom-status/rest/custom-status-endpoint.php:262-270 | supplied fields override, omitted ones keep their value, the id never changes |
| CustomStatus.ById | modules/custom-status/rest/custom-status-endpoint.php:245 | `get_custom_status_by('id')` finds a status exactly when one has that id |
| CustomStatus.BySlug | modules/custom-status/rest/custom-status-endpoint.php:247 | `get_custom_status_by('slug')` finds the first status with that slug, and nothing exactly when none has it |
| CustomStatus.AddKeepsWellformed | modules/custom-status/rest/custom-status-endpoint.php:209 | an accepted add keeps ids and slugs distinct and the new status is found by id and by slug |
| CustomStatus.UpdateKeepsWellformed | modules/custom-status/rest/custom-status-endpoint.php:270 | an accepted update keeps ids and slugs distinct and the id then finds the merged status |
| CustomStatus.DeleteKeepsWellformed | modules/custom-status/rest/custom-status-endpoint.php:292 | a delete keeps ids and slugs distinct and the id then finds nothing |
| CustomStatus.ByPosition | modules/custom-status/rest/custom-status-endpoint.php:329 | the statuses as they are listed: a permutation of them with ascending positions |
| CustomStatus.ByPositionExact | modules/custom-status/rest/custom-status-endpoint.php:329 | statuses at distinct positions `1..N` are listed with position `k + 1` at index `k` |
| CustomStatus.Registry.Add | modules/custom-status/rest/custom-status-endpoint.php:209 | the registry's add: refuses a name with no visible character, then a used slug; otherwise appends under the next id, which then advances |
| CustomStatus.Registry.Update | modules/custom-status/rest/custom-status-endpoint.php:270 | the registry's update: refuses a missing id, then a merged name with no visible character, then a slug held by another status; otherwise merges in place |
| CustomStatus.Registry.Delete | modules/custom-status/rest/custom-status-endpoint.php:292 | the registry's delete: refuses a missing id; otherwise removes the status |
| CustomStatus.Registry.GetCustomStatuses | modules/custom-status/rest/custom-status-endpoint.php:329 | `get_custom_statuses`: every status, as a permutation ordered by ascending position |
| CustomStatusEndpoint.SanitizeName | modules/custom-status/rest/custom-status-endpoint.php:37-43 | the sanitized name is the run of the parameter from its first to its last character `trim` keeps: everything outside it is trimmable and its ends are not; a name the validate callback accepts stays acceptable |
| CustomStatusEndpoint.SanitizeId | modules/custom-status/rest/custom-status-endpoint.php:83-85 | `absint` leaves a non-negative id unchanged |
| CustomStatusEndpoint.ValidatePositions | modules/custom-status/rest/custom-status-endpoint.php:132-147 | accepts exactly an array every entry of which, after `absint`, names a status |
| CustomStatusEndpoint.SanitizePositions | modules/custom-status/rest/custom-status-endpoint.php:148-154 | every entry is replaced in place by its `absint`, order and length kept |
| CustomStatusEndpoint.TermExists | modules/custom-status/rest/custom-status-endpoint.php:196 | finds nothing for a term with no visible character; otherwise finds a term exactly when some status has that slug or name; the first status with the slug wins, and failing that the first with the name |
| CustomStatusEndpoint.NameCheck | modules/custom-status/rest/custom-status-endpoint.php:180-193 | the shared checks pass exactly for a non-numeric, unrestricted name of at most 20 bytes; the numeric error comes first, then the restricted one, then the too-long one |
| CustomStatusEndpoint.CreateCheck | modules/custom-status/rest/custom-status-endpoint.php:180-200 | a create passes exactly when the name checks pass and no term answers to the slug; a failing name check wins, and a term answering to the slug is the conflict error |
| CustomStatusEndpoint.UpdateCheck | modules/custom-status/rest/custom-status-endpoint.php:229-259 | an update passes exactly when the name checks pass, no status holds the slug unless the updated status has it already, and no term but the updated one answers to the slug; the errors come in that order |
| CustomStatusEndpoint.CreateAcceptedIsAdded | modules/custom-status/rest/custom-status-endpoint.php:196-209 | after the checks pass, a slug with a visible character is free, and the registry adds the status exactly when the name has a visible character and the slug is free |
| CustomStatusEndpoint.UpdateOwnSlugAllowed | modules/custom-status/rest/custom-status-endpoint.php:245-259 | keeping the status's own slug never makes an update clash |
| CustomStatusEndpoint.UpdateCollisionRejected | modules/custom-status/rest/custom-status-endpoint.php:245-250 | an update to a slug another status holds is refused by the checks |
| CustomStatusEndpoint.UpdateAcceptedSucceeds | modules/custom-status/rest/custom-status-endpoint.php:245-270 | an update of an existing status that passes the checks is refused by the registry exactly when the new name has no visible character |
| CustomStatusEndpoint.PositionStep | modules/custom-status/rest/custom-status-endpoint.php:313-320 | the move for entry `k` is accepted and extends the applied prefix of the reorder by that entry |
| CustomStatusEndpoint.ReorderApplies | modules/custom-status/rest/custom-status-endpoint.php:313-329 | a reorder applies the entries before the first one naming no status, a status named twice keeping the later position, and then stops with the registry's refusal; without such an entry it completes |
| CustomStatusEndpoint.ValidatedReorderSucceeds | modules/custom-status/rest/custom-status-endpoint.php:132-154 | a payload the validate callback accepts, once sanitized, reorders every status it names without a refusal |
| CustomStatusEndpoint.ReorderAnswerFollowsPayload | modules/custom-status/rest/custom-status-endpoint.php:313-329 | a payload naming every status and only statuses reorders without a refusal, and the answer then lists the statuses in payload order |
| CustomStatusEndpoint.HandleCreate | modules/custom-status/rest/custom-status-endpoint.php:172-213 | the first failing check is the answer and nothing is added; otherwise the registry's add is the answer, which appends the status under the sanitized name, the derived slug and the next id when both have a visible character |
| CustomStatusEndpoint.HandleUpdate | modules/custom-status/rest/custom-status-endpoint.php:220-274 | the first failing check is the answer and nothing is written; otherwise the registry's update is the answer, which succeeds for an existing status and a name with a visible character |
| CustomStatusEndpoint.HandleDelete | modules/custom-status/rest/custom-status-endpoint.php:281-296 | a missing id is "Status does not exist." and nothing changes; otherwise the status is removed and the id then finds nothing |
| CustomStatusEndpoint.HandleReorder | modules/custom-status/rest/custom-status-endpoint.php:303-330 | a non-array is an error; otherwise the statuses after the moves in order, stopping at the first refusal, which is the answer; on success the answer is every status ordered by position |
| CustomStatusBlock.FindAtFindIndex | modules/custom-status/lib/custom-status-block.js:222-230 | `find` and `findIndex` by slug agree |
| CustomStatusBlock.GetStatusTermFromSlug | modules/custom-status/lib/custom-status-block.js:222-224 | the first status with the slug, and nothing exactly when none has it |
| CustomStatusBlock.GetNextStatusTerm | modules/custom-status/lib/custom-status-block.js:226-236 | the status right after the first one with the slug; nothing exactly when no status has the slug or the first that does is the last |
| CustomStatusBlock.IsCustomSaveButtonEnabled | modules/custom-status/lib/custom-status-block.js:187-200 | never shown for an unsaved post; shown only for a supported post type |
| CustomStatusBlock.TruncateText | modules/custom-status/lib/custom-status-block.js:238-243 | short text is unchanged; longer text keeps its first `length` characters followed by an ellipsis |
| CustomStatusBlock.GetCustomSaveButtonText | modules/custom-status/lib/custom-status-block.js:202-220 | "Save" with no next status; otherwise "Move to " and the next name, cut to seven characters and an ellipsis on a narrow viewport |
| CustomStatusBlock.EnabledIffHasNext | modules/custom-status/lib/custom-status-block.js:187-236 | on a saved post the button is shown exactly when the post type is supported and the status has a next status |
| CustomStatusBlock.EnabledHasNext | modules/custom-status/lib/custom-status-block.js:187-220 | a shown button always has a next status and never reads "Save" on a wide viewport |
| CustomStatusBlock.NextFollowsCurrent | modules/custom-status/lib/custom-status-block.js:222-236 | the next status is the one right after the status the slug finds |
| CustomStatusBlock.LastHasNoNext | modules/custom-status/lib/custom-status-block.js:195-200 | a post in the last status (held by no earlier status) has no next status, and the native button is shown |
| CustomStatusBlock.TruncateIdempotent | modules/custom-status/lib/custom-status-block.js:238-243 | truncating twice is truncating once |
| PhpText.TrimIdempotent | modules/custom-status/rest/custom-status-endpoint.php:41 | trimming twice is trimming once |
| PhpText.TrimEmptyIff | modules/custom-status/rest/custom-status-endpoint.php:38 | a string trims to nothing exactly when all of its characters are trimmable |
| PhpText.LetterFirstIsNotNumeric | modules/custom-status/rest/custom-status-endpoint.php:181 | a name starting with a letter other than `e`/`E` is never numeric |
| PhpText.DigitsAreNumeric | modules/custom-status/rest/custom-status-endpoint.php:181 | a non-empty run of decimal digits is numeric |
| PhpText.ZeroPaddedValue | modules/editorial-metadata/editorial-metadata.php:300 | a number written with leading zeros is numeric and denotes that number, which is what PHP 8 `==` compares it by |
| PhpText.AsciiLowerIdempotent | modules/custom-status/rest/custom-status-endpoint.php:186 | lower-casing twice is lower-casing once |
| PhpText.AsciiLengthIsByteLength | modules/custom-status/rest/custom-status-endpoint.php:191 | for ASCII names the byte length checked against 20 is the character count |
| PhpText.Absint | modules/custom-status/rest/custom-status-endpoint.php:84 | `absint` is the absolute value |

Noted behaviour: `StaleKeyAfterTypeChange` shows the following. Once a term's
type has changed, the term carries a `meta_key` derived from its old type. A
later delete purges the key derived from the new type (lines 420-422). Post
meta stored under the old key therefore outlives the term. The model keeps
this behaviour as written.

## Left out

- Ordering by name: `get_terms` returns terms ordered by name. The model
  keeps them in insertion order and proves the ordering properties for any
  storage order.
- WordPress's own term engine: only the rules listed above are modelled.
  Name-duplicate checks, unique-slug suffixing, hierarchy and the term
  taxonomy ids are left out.
- The packed description format (`TaxonomyUtilities`): the encoding is
  abstract, with decode inverting encode. A description that holds plain text
  or a non-array is a free `Plain` value.
- `wp_filter_object_list` on arbitrary fields: only `id`, `slug` and `name`
  are looked up, as the source restricts. The lookup value is an integer or a
  string; other PHP types are not modelled.
- MetadataTerm.FindBy: PHP 8 `==` reads a numeric string in decimal-point or
  exponent form into a double, while the model reads it exactly. The two
  differ only for values a double cannot hold exactly.
- EditorialMetadata.Registry.GetTermBy: it inherits the comparison of
  `MetadataTerm.FindBy` and the same difference for values a double cannot
  hold.
- EditorialMetadata.Registry.StoreInsert: it refuses a slug that another term
  holds. `wp_insert_term` refuses a duplicate name instead (`term_exists`),
  and it gives a used slug a numeric suffix through `wp_unique_term_slug`.
  Inserting a field "Foo!" next to a field "Foo" therefore succeeds in
  WordPress under the slug `foo-2`, while the model refuses it.
- CustomStatusEndpoint.TermExists: WordPress trims the term, sanitizes it
  again for the slug lookup, and compares slugs and names through the
  database collation, which ignores case. The model compares the given text
  exactly. For the output of `sanitize_title`, which is trimmed and lower
  case, the differences are the names that differ from a status's name only
  in case or accents.
- EditorialMetadata.Registry.StoreUpdate: it refuses a slug another term
  holds even when the update supplies no slug. `wp_update_term` then derives
  the slug from the name and suffixes it through `wp_unique_term_slug`, and
  only a non-empty slug that was supplied draws `duplicate_term_slug`.
  Renaming a field to "Foo!" with an empty slug next to a field "Foo"
  therefore succeeds in WordPress under `foo-2`, while the model refuses it.
- CustomStatus.ByPosition: it states that the list is ordered by ascending
  position and is a permutation of the statuses. How statuses that share a
  position are ordered is not stated.
- CustomStatus.Registry.Add: it refuses a used slug, as the engine rule above
  does, where WordPress would add the status under a suffixed slug.
- EditorialMetadata.Registry.Delete: it requires the id to exist. For a
  missing id the source passes `false` to a function typed `WP_Term`, which is
  a fatal error. The source's `WP_Error` return for a refused `wp_delete_term`
  is unreachable in the model, because the engine always deletes an existing
  term.
- `delete_post_meta_by_key` acts on a set of post-meta keys in use. The
  values stored per post are not modelled.
- `get_postmeta_args`' `sanitize_callback` closure: the registration
  arguments are modelled without it.
- `sanitize_text_field`, `sanitize_title` and the description callback
  (`stripslashes(wp_filter_nohtml_kses(trim()))`) are WordPress functions.
  They appear as the parameters of `Sanitizers` and as the registry's
  `sanitizeTitle`, or the description is taken as already sanitized.
- `Custom_Status` itself (`add_custom_status`, `update_custom_status`,
  `delete_custom_status`, `get_custom_statuses`, `is_restricted_status`,
  `get_custom_status_by`) is not part of this model. It is modelled by the
  assumed behaviour described above, and the restricted names are a set the
  registry is given.
- The `id` validate callback and the handlers look statuses up among the
  registry's statuses. `get_term` on other taxonomies is not modelled.
- CustomStatusEndpoint.HandleReorder: `status_positions` is a list, with
  positions `0..n-1` as keys. A PHP array with other keys is not modelled.
- `is_numeric` is modelled for ASCII decimal integers and decimals with an
  optional sign, an exponent and leading or trailing whitespace. Hexadecimal
  and other locale forms are not modelled.
- `strtolower` is modelled for ASCII letters only. `strlen` is the UTF-8
  byte count of the characters.
- CustomStatusBlock.TruncateText: JavaScript string length counts UTF-16 code
  units, while the model counts characters. The two differ for characters
  outside the Basic Multilingual Plane.
- The `__`/`sprintf` translation layer is modelled as the English strings.
- Hooks, script and style loading, REST route registration, the
  `manage_options` permission callback, the React components and the URL
  helpers are interface code. They are left out.

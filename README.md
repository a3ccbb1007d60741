# Discussion record model

This project models the `Discussion` Eloquent model of the `discussion` package
(`CarroPublic\Discussion\Discussion`): a comment attached to any parent record,
with an approval flag, two query scopes that split records by that flag,
per-user read tracking in the `read_user_id` attribute, and the configuration
fallback that names the model class of a discussion's author.

- `wrappers.dfy` (module `Wrappers`): `Option` for a PHP value that may be null,
  `Result` for an operation that may throw.
- `read_list.dfy` (module `ReadList`): the forms the `read_user_id` attribute can
  take when read back (`Null`, an already decoded list, a JSON string abstracted
  as `Encoded(ids)`, or anything else), `Decode` (the private `getReadUserIds`),
  `Unique` (PHP's `array_unique`, keeping first occurrences), `IsRead`, `Mark`
  (the value `readByUserId` writes) and `MarkAll` (a run of such calls), with
  the lemmas about them.
- `discussion.dfy` (module `Discussions`): the `Record` value of all attributes,
  the `Discussion` class whose `Approve` and `ReadByUserId` methods update its
  fields in place and return the object (a `stored` flag, Eloquent's `exists`,
  says whether the record has a row yet: `update` on a record without one
  does nothing), the scopes as filters over a sequence
  of records, and `GetAuthModelName` with the two configuration values passed in.

`update([...])` on a stored record is modelled as assignment to the named field;
the `Retrieved` constructor stands for a record loaded from its row; the scopes, which
add a `where` clause to a query, are modelled as filters over a `seq<Record>`.
User ids are `int`.

## Model

| member | source | states |
|---|---|---|
| `Discussions.Discussion.constructor` | src/Discussion.php:13-22 | a new record is not stored, holds the given fillable attributes and has no `id`, which is not fillable |
| `Discussions.Where` | src/Discussion.php:31-39 | a record is kept iff it is in the collection and its `is_approved` equals the requested value; the result is a sub-multiset of the collection |
| `Discussions.ScopeApproved` | src/Discussion.php:31-34 | keeps exactly the records whose `is_approved` is true |
| `Discussions.ScopeDisapproved` | src/Discussion.php:36-39 | keeps exactly the records whose `is_approved` is false |
| `Discussions.WherePartition` | src/Discussion.php:31-39 | the true-filter and the false-filter together hold every record of the collection exactly as often as it occurs |
| `Discussions.ScopesPartition` | src/Discussion.php:31-39 | the approved and disapproved scopes partition any collection: no record in both, none missing, multiplicities kept |
| `Discussions.Approved` | src/Discussion.php:53-55 | the attributes after approval: the flag is true and every other attribute is the old one |
| `Discussions.Discussion.Approve` | src/Discussion.php:51-58 | on a stored record sets `is_approved` to true and leaves every other attribute unchanged; on a record not stored changes nothing; returns the same object |
| `Discussions.ApproveIdempotent` | src/Discussion.php:51-58 | approving twice gives the same attributes as approving once, and the flag is then true |
| `Discussions.Discussion.ReadByUserId` | src/Discussion.php:67-77 | on a stored record the new `read_user_id` is the encoded, de-duplicated old list with the user appended, only that attribute changes, the user has then read the discussion and the stored list has no duplicates; on a record not stored nothing changes; in both cases no earlier reader is lost and no other user's status changes; returns the same object |
| `Discussions.Discussion.GetReadUserIds` | src/Discussion.php:79-94 | the record's readers: empty when the attribute is null or of an unexpected type, the carried list when it is an array or an encoded string |
| `Discussions.Discussion.IsReadByUserId` | src/Discussion.php:103-106 | a user has read the record iff the user is among its readers; nobody has when the attribute is null or of an unexpected type |
| `ReadList.Unique` | src/Discussion.php:73 | `array_unique`: the result has no duplicates, holds exactly the ids of the input, is no longer than it, and equals the input when the input has no duplicates |
| `ReadList.UniqueAppend` | src/Discussion.php:70-73 | de-duplicating a list with one id appended adds that id exactly when it is new |
| `ReadList.UniqueAbsorbs` | src/Discussion.php:73 | de-duplicating a de-duplicated prefix followed by more ids is the same as de-duplicating the whole |
| `ReadList.Decode` | src/Discussion.php:79-94 | null reads as the empty list, an array as itself, an encoded string as the list it encodes, anything else as the empty list |
| `ReadList.Encode` | src/Discussion.php:73 | `json_encode` kept abstract: the result is the encoded form and decodes to the given list |
| `ReadList.IsRead` | src/Discussion.php:103-106 | false when the attribute is null or of an unexpected type; otherwise true iff the user is in the carried list |
| `ReadList.DecodeEncode` | src/Discussion.php:89-90 | decoding the encoded form of a list gives that list back |
| `ReadList.Mark` | src/Discussion.php:69-73 | the value written by `readByUserId` is in encoded form and decodes to a list without duplicates |
| `ReadList.MarkReads` | src/Discussion.php:67-77 | after marking a user, `isReadByUserId` is true for that user |
| `ReadList.MarkAppendsNew` | src/Discussion.php:69-73 | on a list without duplicates, marking a user keeps the list when the user is present and appends the user otherwise; the result has no duplicates |
| `ReadList.MarkIdempotent` | src/Discussion.php:70-73 | marking the same user a second time writes the same value as the first time |
| `ReadList.MarkMonotone` | src/Discussion.php:67-77 | marking a user never removes a reader, and every other user's read status is unchanged |
| `ReadList.MarkRoundTrip` | src/Discussion.php:73 | the stored value is the encoding of its own decoding, and decoding it gives the de-duplicated old list with the user appended |
| `ReadList.MarkAll` | src/Discussion.php:67-77 | a run of `readByUserId` calls: an empty run leaves the attribute as it was; a run of one or more calls leaves it encoded and without duplicates |
| `ReadList.MarkAllList` | src/Discussion.php:67-77 | from a list without duplicates, any run of marks leaves the de-duplication of the old list followed by the marked ids |
| `ReadList.MarkAllReaders` | src/Discussion.php:67-77 | from any starting value, after a run of marks a user has read the discussion iff they had before or were marked |
| `ReadList.MarkAllOrderIrrelevant` | src/Discussion.php:67-77 | from any starting value, two runs marking the same set of users, in any order and with any repetition, leave the same readers |
| `ReadList.FreshDiscussionExample` | src/Discussion.php:67-106 | on a record with null `read_user_id`, marking 7 makes 7 a reader and not 8, and marking 7 again stores just `[7]` |
| `Discussions.Truthy` | src/Discussion.php:110 | PHP truthiness of a string or null: null, `""` and `"0"` are falsy, any other string is truthy |
| `Discussions.GetAuthModelName` | src/Discussion.php:108-119 | returns `discussion.user_model` when it is truthy; otherwise `auth.providers.users.model` when it is not null; otherwise fails with "Could not determine the discusser model name." |
| `Discussions.AuthModelAsymmetry` | src/Discussion.php:110-116 | an empty or "0" override is skipped while an empty provider model is returned as it is |

## Left out

- `discussable()` and `discusser()` (src/Discussion.php:41-49): they only hand the polymorphic and belongs-to relations to the ORM; `discusser()` uses `GetAuthModelName`, which is modelled.
- Persistence: on a stored record `update` fills the attribute and saves the row; only the attribute change is modelled, not the database write or its failure. On a record not stored, `update` returns false and assigns nothing; the model keeps that no-op.
- Timestamps: saving a changed record also sets `updated_at` (and inserting sets `created_at`); `Record` has no timestamp attributes.
- Saving a new record, which assigns its `id` and makes it stored, is not modelled; stored records come from the `Retrieved` constructor.
- Query building: the scopes add a `where` clause to a query; they are modelled as filters over an in-memory sequence of records.
- JSON text: `json_encode` and `json_decode` are kept abstract as the `Encoded` constructor and `Decode`; a malformed string, for which `json_decode` returns null, and a string that decodes to a non-array are not modelled.
- The `json` cast encoding the already encoded string written by `readByUserId` once more, which is why the string form is read back: modelled directly as the `Encoded` form.
- `ReadList.Unique`: `array_unique` keeps the original keys, so when it drops an entry that comes before a kept one, or the value read back already has gaps in its keys, the JSON written is an object, not a list; the model keeps only the values in order, and the lemmas that describe the written list exactly assume the old list had no duplicates.
- `Discussions.Where` and `Discussions.ScopesPartition`: the `is_approved` column is assumed to hold a non-null 0 or 1. In the store a NULL flag, or another value the `boolean` cast reads as true, matches neither `where('is_approved', true)` nor `where('is_approved', false)`, so such a row is in neither scope.
- PHP loose comparison in `in_array` and `array_unique` (`"7"` equals `7`): user ids are integers.
- `Discussions.Truthy`: only string and null configuration values are modelled; other PHP values (arrays, numbers, booleans) have their own truthiness rules.
- The global `config()` lookup: both configuration values are parameters of `GetAuthModelName`.
- The `HasDiscussion` trait is not part of this model.
- The `discussion`, `tagged_user_id` and `additional_data` attributes are carried unchanged and not interpreted; `additional_data` is simplified to a map of strings.
- Concurrent read-modify-write of `read_user_id` by two requests: out of scope.

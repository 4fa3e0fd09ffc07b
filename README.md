# Healthcare Provider store, validators and toast notifier in Dafny

This project models the core of a small FastAPI application for "Healthcare Provider" records,
and the Android-style toast widget its admin page uses.

- **The provider store** (`part-1/main.py`; `part-3/main.py` is the same logic plus file
  persistence). It has four module-level dicts:
  - `in_memory_db`, mapping a UUID to a record, in insertion order;
  - `name_table`, `organization_table` and `address_table`, mapping a field value back to the
    UUID of the record that holds it.

  The handlers are create, get one, get a page, update, delete one and delete all. Run one at a
  time, they keep one invariant: each table is exactly the inverse of its field over the stored records.
  That invariant is what makes name, organization and address unique across providers.
- **The page count** `calculate_total_pages` (`part-2/utils/math_utils.py`, repeated in
  `part-1/main.py`). It is `-(n // -d)` with Python floor division, which gives the ceiling of `n/d`.
- **The field constraints** of `HealthcareProvider` (`part-3/schema.py`): name length, phone
  pattern, organization and address minimum lengths, and the defaults.
- **The toast notifier** (`part-3/static/android_toast.js`): option normalisation, `show`, `hide`
  and `remove_toast`. The page holds at most one toast container.

Files and modules:

| file | module | contents |
|---|---|---|
| `wrappers.dfy` | `Wrappers` | `Option`, `Result`, `Outcome` |
| `pagination.dfy` | `Pagination` | Python floor division; the page count and its ceiling properties |
| `schema.dfy` | `Schema` | the record, the request body with its set and unset fields, defaults, the partial update, the field constraints, the phone recognizer |
| `ordered_dict.dfy` | `OrderedDict` | a Python `dict` as a sequence of keys in insertion order plus a map |
| `provider_db.dfy` | `ProviderDb` | the store as a value (`Db`): the invariant `Consistent`, the uniqueness check, the state each handler leaves, the page listing and their lemmas |
| `provider_api.dfy` | `ProviderApi` | class `Store` with the four dicts as fields; each handler is a method proved against `ProviderDb`; the list-filling loop of `get_providers` |
| `toast.dfy` | `Toast` | class `Page` (the toast slot and pending timers) and class `AndroidToast` |

How the model represents the source:

- **Handler outcomes.** Every handler returns `Result<_, HttpError>`. An `HttpError` holds the
  status code and a `Reason`.
- **Invalid bodies.** A body that breaks a field constraint is answered 422 before the handler
  runs. `FieldErrors` decides this. It checks the phone with the corrected recognizer
  `ValidPhone`, not with the pattern as Python applies it (see "## Findings").
- **`get_providers`.** It is modelled on unbounded integers for every `limit` and `page`, as
  Python's `int` is. `islice` raises `ValueError` on a negative start or stop, which becomes
  a 500; an index above `sys.maxsize` is clipped to it (CPython 3.7 and later), which leaves the
  slice empty as there are fewer records than that. The cases are:
  - an empty store or a zero limit lists as `[]`;
  - with records and a positive limit, a page above the last gets a 400, and a page below 1
    gets a 500;
  - a negative limit lists as `[]` when there are fewer records than `|limit|`. Otherwise the
    page count is negative and every page above it gets a 400. A page at or below it gives an
    empty listing, because `[None] * limit` is `[]`.

  FastAPI fills in the query defaults `limit=100` and `page=1` before the handler runs.
  `ProviderApi.Store.GetProviders` takes both values, and the constants `DefaultLimit` and
  `DefaultPage` give the defaults.
- **The toast's timers.** `setTimeout(this.hide, duration)` passes `hide` without its object.
  When the timer fires, `this.timeout_id` is therefore undefined and the callback cancels nothing.
  It fades whatever container is on the page, including one that a later toast put there.
  `SupersededTimerFadesSuccessor` exhibits this.
- **The toast constructor.** Its body says `return false` when the options are missing. Under
  `new`, JavaScript ignores a primitive return value and yields the object anyway, and the result
  of `show()` is ignored too. So the modelled constructor has no success result: it only sets the
  fields and, with an object argument, shows the toast.

## Model

| member | source | states |
|---|---|---|
| Pagination.FloorDiv | part-2/utils/math_utils.py:9 | Python `//`: for a positive divisor `q*b <= a < q*b + b`, for a negative one `q*b + b < a <= q*b` (rounded towards negative infinity) |
| Pagination.TotalPages | part-2/utils/math_utils.py:1-9 | 0 when the page size is 0; otherwise the ceiling of `n/d`: `(p-1)*d < n <= p*d` for `d > 0`, and the mirrored bounds for `d < 0` |
| Pagination.TotalPagesUnique | part-1/main.py:55-63 | for `d > 0` the page count is the only `p` with `(p-1)*d < n <= p*d` |
| Pagination.TotalPagesExact | part-2/utils/math_utils.py:9 | when `d` divides `n`, the page count is exactly `n/d` |
| Pagination.TotalPagesOfNothing | part-2/utils/math_utils.py:6-9 | no items give 0 pages for every page size, 0 included |
| Pagination.TotalPagesNonNegative | part-2/utils/math_utils.py:9 | a non-negative count and a positive page size give a non-negative page count |
| Pagination.TotalPagesBounds | part-1/main.py:55-63 | a page size between 1 and `n` gives between 1 and `n` pages |
| Schema.Override | part-1/main.py:132-137 | the partial update: the four required fields come from the body; each optional field the client set takes the body's value, and each one the client left unset keeps its stored value |
| Schema.WithDefaults | part-3/schema.py:6-19 | the record built from a body that meets every constraint meets them too |
| Schema.WithDefaultsFields | part-3/schema.py:6-19 | a new record takes every field the client set, with defaults for the rest: `active` true, empty `qualification` and `specialty`, no `department` or `location` |
| Schema.OverrideIdempotent | part-3/main.py:155-161 | applying the same update body twice gives the same record as applying it once |
| Schema.ValidPhone | part-3/schema.py:11 | the corrected phone recognizer: an accepted string starts with `+` and has 5 to 16 characters |
| Schema.PhoneMatchesAsWritten | part-3/schema.py:11 | the phone pattern as `re.match` applies it: an accepted string starts with `+` and has 5 to 17 characters; it accepts every string the corrected recognizer accepts |
| Schema.LeadingDigits | part-3/schema.py:11 | the length of the run of digits at the start of a string: all digits before it, a non-digit (or the end) at it |
| Schema.ValidPhoneIffShape | part-3/schema.py:11 | the phone recognizer accepts exactly `+`, one digit 1-9, then 3 to 14 digits and nothing else, so 5 to 16 characters |
| Schema.AsWrittenIffShapeOrNewline | part-3/schema.py:11 | the pattern as Python's `re.match` applies it accepts exactly that shape, optionally followed by one newline |
| Schema.AsWrittenAcceptsTrailingNewline | part-3/schema.py:11 | `"+1234\n"` is accepted as written but is not a valid phone number |
| Schema.FieldErrors | part-3/schema.py:8-15 | the body is rejected iff a constraint fails; it lists `name` iff the length is outside 2..50, `phone` iff the corrected recognizer `ValidPhone` rejects it, `organization` iff shorter than 2, `address` iff shorter than 5 |
| Schema.OverrideValid | part-1/main.py:132-138 | a record merged from a valid body is valid whatever was stored, since every constrained field comes from the body |
| OrderedDict.Empty | part-1/main.py:9 | `{}` has no keys and satisfies the dict invariant |
| OrderedDict.Put | part-1/main.py:76 | `d[k] = v` maps `k` to `v`; a new key goes last, an existing key keeps its position |
| OrderedDict.Remove | part-1/main.py:156 | `del d[k]` removes exactly `k` and one position from the key order |
| OrderedDict.RemoveKeepsOrder | part-3/main.py:181 | after `del d[k]` the other keys keep their relative order: putting `k` back at its old position restores the key sequence |
| OrderedDict.Clear | part-1/main.py:168 | `d.clear()` leaves no keys and no values |
| OrderedDict.Items | part-1/main.py:118 | `d.items()` yields every key in insertion order, each with its stored value |
| ProviderDb.Cleared | part-1/main.py:163-168 | all four dicts empty satisfies the store invariant |
| ProviderDb.CheckValidityUniqueFields | part-1/main.py:35-52 | fails with 400 iff the name, organization or address is indexed under an id other than the owner; the reason names the first conflicting field, checking name, then organization, then address |
| ProviderDb.CheckMeansNoSharedField | part-3/main.py:58-75 | on a consistent store the check passes iff no stored record other than the owner shares the name, organization or address with the body |
| ProviderDb.OwnFieldsDoNotConflict | part-1/main.py:42-52 | a record's own name, organization and address, resubmitted under its own id, are not a conflict |
| ProviderDb.StoredFieldsIndexed | part-3/main.py:52-55 | on a consistent store each record's three field values are indexed under its id, so the `del`s of `del_from_unique_tables` find their keys |
| ProviderDb.UniqueFieldsAreUnique | part-1/main.py:11-20 | on a consistent store no two records share a name, an organization or an address |
| ProviderDb.Inserted | part-1/main.py:69-80 | the state `create_provider` leaves: the records gain the id with the new record, a fresh id goes last in the key order, and each of the three tables maps the record's value to the id |
| ProviderDb.Replaced | part-1/main.py:124-144 | the state `update_provider` leaves: the id's record is replaced, the key order is unchanged, and each of the three tables maps the new record's value to the id |
| ProviderDb.Removed | part-1/main.py:147-160 | the state `delete_provider` leaves: the id and its record are gone, the key order loses one position, and the removed record's three values are no longer indexed |
| ProviderDb.IndexAfterInsert | part-1/main.py:23-26 | indexing a new record whose field value is free keeps that table the inverse of the field |
| ProviderDb.IndexAfterReplace | part-1/main.py:135-142 | unindexing the old record and indexing the merged one under the same id keeps the table the inverse of the field |
| ProviderDb.IndexAfterRemove | part-1/main.py:156-158 | dropping a record and its table entry keeps the table the inverse of the field |
| ProviderDb.CreateKeepsConsistent | part-3/main.py:87-100 | storing a valid body that passes the check under a fresh id keeps the store invariant |
| ProviderDb.UpdateKeepsConsistent | part-3/main.py:147-169 | replacing a record by its override with a valid body that passes the check keeps the store invariant |
| ProviderDb.DeleteKeepsConsistent | part-3/main.py:172-187 | deleting an existing record keeps the store invariant |
| ProviderDb.UpdateTouchesOnlyTarget | part-1/main.py:124-144 | an update keeps the key order; every other record keeps its value and its three index entries |
| ProviderDb.DeleteTouchesOnlyTarget | part-1/main.py:147-160 | a delete removes the id and its field values from the tables; every other record keeps its value and its index entries |
| ProviderDb.ListProviders | part-1/main.py:99-121 | the reply of `get_providers`: an error is a 400 or a 500, and a listing never has more slots than there are records |
| ProviderDb.ListEmptyStore | part-1/main.py:105-108 | an empty store lists as `[]` whatever the limit and page |
| ProviderDb.ListPageOutOfRange | part-1/main.py:110-112 | with records and a positive limit there is at least one page, and the 400 comes iff the page is beyond the last |
| ProviderDb.ListPageBelowOne | part-3/main.py:138-141 | with records and a positive limit, a page below 1 gives a negative slice start, which `islice` refuses (500) |
| ProviderDb.ListPageContents | part-1/main.py:114-121 | a page in range has exactly the clamped limit of slots; slot `i` holds the record at insertion position `(page-1)*limit + i`, tagged with its id, or `None` past the end; it echoes the page and the page count |
| ProviderDb.ListFindsEveryRecord | part-3/main.py:119-144 | with a positive limit, the record at insertion position `j` is listed on page `j/limit + 1` in slot `j % limit` |
| ProviderDb.ListDefaultQuery | part-1/main.py:100-121 | with the defaults `limit=100` and `page=1`, a non-empty store lists page 1 holding its first 100 records in insertion order, or all of them when there are fewer |
| ProviderDb.ListStartBeyondMaxSize | part-3/main.py:138-141 | a slice start above `sys.maxsize` is clipped by `islice`, not refused: one record, limit -1 and page -2^63 give an empty page echoing page -2^63 and page count -1 |
| ProviderDb.ListNegativeLimit | part-3/main.py:120-135 | a negative limit never lists a record |
| ProviderDb.ListZeroLimit | part-3/main.py:122-128 | a zero limit lists as `[]` |
| ProviderApi.FillPage | part-1/main.py:114-119 | the loop yields `max(limit, 0)` slots; slot `i` holds item `start + i`, or `None` past the end |
| ProviderApi.Store.constructor | part-1/main.py:9-20 | the four dicts start empty, and the invariant holds |
| ProviderApi.Store.AddToUniqueTables | part-1/main.py:23-26 | the three tables map the record's name, organization and address to the id; the records are unchanged |
| ProviderApi.Store.DelFromUniqueTables | part-3/main.py:52-55 | the record's three field values leave their tables; all three must be present, as a missing key raises `KeyError` |
| ProviderApi.Store.CreateProvider | part-1/main.py:69-80 | 422 on an invalid body; the check's 400 on a conflict; otherwise the record with defaults is stored under the fresh id, last in order, and indexed under it; errors change nothing; the invariant is kept |
| ProviderApi.Store.GetProvider | part-1/main.py:83-92 | 404 when the id is absent, otherwise the stored record tagged with its id; nothing changes |
| ProviderApi.Store.GetProviders | part-3/main.py:119-144 | the reply is `ListProviders` of the current state, so the `ProviderDb.List*` lemmas describe it |
| ProviderApi.Store.UpdateProvider | part-3/main.py:147-169 | 422, then 404 on an unknown id, then the check's 400 with the record's own id as owner; otherwise the record becomes its override, keeps its id and position, and the old values are unindexed while the new ones are indexed; errors change nothing |
| ProviderApi.Store.DeleteProvider | part-3/main.py:172-187 | 404 on an unknown id and no change; otherwise the removed record tagged with its id, the record and its three index entries are gone, and the invariant is kept |
| ProviderApi.Store.DeleteProviders | part-3/main.py:190-196 | all four dicts are empty afterwards |
| Toast.ToLower | part-3/static/android_toast.js:21 | lower-casing keeps the length and maps each character to its lower-case letter |
| Toast.ToLowerIdempotent | part-3/static/android_toast.js:21 | lower-casing twice is lower-casing once |
| Toast.NormalizePosition | part-3/static/android_toast.js:20-27 | the position is always `"top"` or `"bottom"`, and `"top"` iff a non-empty option lower-cases to `"top"` |
| Toast.PositionIgnoresCase | part-3/static/android_toast.js:20-23 | an option and its lower-cased form select the same position |
| Toast.PositionExamples | part-3/static/android_toast.js:20-27 | `"TOP"` gives `"top"`; `"left"` and no option give `"bottom"` |
| Toast.Page.RemoveToast | part-3/static/android_toast.js:61-67 | leaves no container, so a second call finds nothing and changes nothing; the result only says which case ran, since the event dispatch that calls it discards the source's return value |
| Toast.Page.FadeOut | part-3/static/android_toast.js:59 | the container's class gains ` android_toast_fadeout`, and the removal listeners are attached |
| Toast.Page.AnimationEnd | part-3/static/android_toast.js:68-71 | the container is removed iff `hide` attached the listeners; otherwise nothing changes |
| Toast.Page.TimerFires | part-3/static/android_toast.js:50-59 | the fired timer is gone; whatever container is present is faded, whichever toast created it |
| Toast.AndroidToast.constructor | part-3/static/android_toast.js:6-29 | defaults are 3000, `""`, `"bottom"` and no timer; a missing or non-object argument stops there with the page unchanged; otherwise each truthy option replaces its default, the position is normalised, and a toast with content is shown |
| Toast.AndroidToast.Show | part-3/static/android_toast.js:30-52 | succeeds iff there is content; with none nothing changes; otherwise the own pending timer is cancelled, the single container is replaced by one classed `android_toast_fadein` (plus ` android_toast_top` iff the position is top) holding the content, and a fresh timer is armed for the duration |
| Toast.AndroidToast.Hide | part-3/static/android_toast.js:53-73 | succeeds iff a container is present; without one nothing changes; with one, the own timer is cancelled and the container fades out but stays on the page |
| Toast.SupersededTimerFadesSuccessor | part-3/static/android_toast.js:34-37 | a first toast's timer, still pending when a second toast replaces the container, fades the second toast's container when it fires |

## Left out

- Concurrency: each handler is modelled as one atomic step, and the store invariant is proved only for requests handled one at a time. The handlers are plain `def` functions, which FastAPI runs in a thread pool, so two requests can interleave. For example, two creates with the same name can both pass `check_validity_unique_fields` before either reaches `add_to_unique_tables`. Both records are then stored with that name, and `name_table` holds one entry for it, pointing to the second. Deleting either record removes that entry; deleting the other one afterwards raises `KeyError` in `del_from_unique_tables`, after its record has already left `in_memory_db`.
- Persistence in `part-3/main.py`: `dump_to_file`, `read_from_file` and `part-2/utils/file_pickle.py` are file I/O. Apart from those calls, the part-3 handlers are the part-1 handlers.
- `uuid4()`: the fresh id is a parameter of `ProviderApi.Store.CreateProvider`, which requires that the id is not already stored.
- FastAPI routing and response serialisation, including the 201 status of a successful create. The text of each `HTTPException` detail is replaced by the `Reason` datatype.
- Pydantic's parsing and type coercion. A body is already a typed `ProviderInput`. Only the four constrained fields produce errors, and their error format is reduced to a list of field names. Re-validating a stored record through `HealthcareProvider(**stored)` is not modelled as a step; it cannot fail, because `Consistent` keeps every stored record valid.
- `print` and `console.log` diagnostics.
- `part-3/static/providers.js` is not part of this model. It holds fetch calls and DOM table updates driven by server replies.
- Schema.FieldErrors: the phone is checked with the corrected recognizer `ValidPhone`. The source's pattern, applied with `re.match`, also accepts a valid phone number followed by one newline, such as `"+1234\n"`; the model answers 422 to it where the source stores it. `Schema.PhoneMatchesAsWritten` models the source's behaviour (see "## Findings").
- Toast.AndroidToast.constructor: the duration is a natural number. `parseFloat`, fractional or non-numeric durations, and the `NaN` it can produce are not modelled.
- Toast.AndroidToast.constructor: content and position are strings. A non-string position, on which `toLowerCase` would throw, is not modelled. Markup in the content is kept as text; `innerHTML` parsing is not modelled.
- Toast.AndroidToast.constructor: the implicit global variable `position` that the constructor assigns is not modelled.
- Toast.ToLower: only ASCII letters are lower-cased. JavaScript's full Unicode lower-casing is not modelled. The whitelist outcome (`"top"`, `"bottom"` or neither) is the same either way, because only ASCII strings can lower-case to those words.
- Real timers, and which animation-end event a browser actually delivers. Timer expiry and animation end are external method calls (`Toast.Page.TimerFires`, `Toast.Page.AnimationEnd`). Toast.Page.AnimationEnd treats every animation-end event as reaching the listeners. The source registers the unprefixed name as `animationEnd`, while the standard event is `animationend`, so in a browser without the prefixed events the container may never be removed.
- Toast.Page.AnimationEnd: the four listeners are modelled as one removal. Further listeners find no container, as `Toast.Page.RemoveToast` states.
- The document beyond the single toast slot: other elements, and the inner `#android_toast` element as a node of its own.

## Findings

| source | as written | input that shows it | evidently intended | confidence | as-written member | corrected member |
|---|---|---|---|---|---|---|
| part-3/schema.py:11 | the phone pattern `^\+[1-9]{1}[0-9]{3,14}$` is applied with Python's `re.match`, where `$` also matches just before a final newline | `"+1234\n"` is accepted as a phone number and stored with its newline | accept only `+`, a digit 1-9 and 3 to 14 digits, with nothing after them (for example with `\Z` in place of `$`) | medium, not executed | Schema.PhoneMatchesAsWritten, Schema.AsWrittenAcceptsTrailingNewline | Schema.ValidPhone, Schema.ValidPhoneIffShape |

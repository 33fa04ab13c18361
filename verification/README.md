# Blog post store — a Dafny model

This project models the post store of the blog back end in
`backend/backend_app.py`. The store is an ordered list of `{id, title, content}`
records, kept in insertion order and seeded with two posts when the process
starts. Four routes operate on it:

- list: `GET /api/posts` returns the store as it is;
- create: `POST /api/posts` trims `title` and `content`, reports every blank
  field, and otherwise appends a record with the next id;
- update: `PUT /api/posts/<id>` is a partial update. A supplied field
  overwrites the stored value only when it is non-blank after trimming;
- delete: `DELETE /api/posts/<id>` removes the first record with that id.

The HTTP layer is stripped away. Each operation is a pure function from the
current store (`seq<Post>`) to an outcome and the next store. The outcome is
either `Ok` or `Err(MissingFields(..))` / `Err(NotFound(..))`. Request
fields are `Option<string>`, with `None` meaning that the JSON key is absent.

- `text.dfy`, module `Text`: whitespace stripping (`str.strip()`) and
  blankness.
- `posts.dfy`, module `Posts`: the records, the seed store, id assignment,
  create, delete and update, and the store invariant
  `Valid`. `Valid` means the ids are pairwise distinct and positive, and no
  title or content is blank.
- `api.dfy`, module `Api`: the four routes as one request/response step and
  runs of steps from the seed store.

## Model

| member | source | states |
|---|---|---|
| Text.IsWhitespace | backend/backend_app.py:28-29 | the characters `strip()` removes: space, tab, line feed and carriage return are among them, and no ASCII letter or digit is |
| Text.Trim | backend/backend_app.py:28-29 | the model of `str.strip()`: the result is no longer than the value and neither starts nor ends with whitespace (its full characterization is `Text.TrimStrips` and `Text.TrimCharacterized`) |
| Text.SkipLeading | backend/backend_app.py:28 | the start of the stripped text: everything before it is whitespace, and it is the end of the value or a non-whitespace character |
| Text.SkipTrailing | backend/backend_app.py:28 | the end of the stripped text: everything after it is whitespace, and the character just before it is not whitespace unless nothing is left |
| Text.TrimStrips | backend/backend_app.py:28-29 | `strip()` leaves the part of the value between a whitespace-only prefix and a whitespace-only suffix, with no whitespace at either end of the part |
| Text.TrimCharacterized | backend/backend_app.py:28-29 | any value meeting that description of stripping equals the model's `strip()` result |
| Text.StripsToUnique | backend/backend_app.py:28-29 | a value has only one stripped form |
| Text.TrimIdempotent | backend/backend_app.py:77-84 | stripping an already stripped value changes nothing |
| Text.BlankIffTrimEmpty | backend/backend_app.py:32-35 | `not value.strip()` holds exactly when the value is whitespace only |
| Text.TrimmedBlankIsEmpty | backend/backend_app.py:78-83 | a stripped value is blank only when it is empty |
| Posts.SeedValid | backend/backend_app.py:7-10 | the two seed posts have distinct positive ids and non-blank titles and contents |
| Posts.MaxId | backend/backend_app.py:17 | the maximum id is at least every stored id and is carried by some record |
| Posts.NextId | backend/backend_app.py:13-17 | an empty store gives 1; otherwise the result is one above an existing id and exceeds every stored id, so no record has it |
| Posts.NextIdOneIffEmpty | backend/backend_app.py:15-17 | when ids are positive, the next id is 1 exactly when the store is empty, and it is always at least 1 |
| Posts.FirstIndex | backend/backend_app.py:55-56 | finds nothing exactly when no record has the id; otherwise gives the position of the first record with that id |
| Posts.Missing | backend/backend_app.py:31-35 | "title" is listed exactly when the stripped title is empty and "content" exactly when the stripped content is empty, and "title" comes before "content" |
| Posts.Create | backend/backend_app.py:26-50 | fails exactly when a field is blank, listing the blank fields in order and leaving the store unchanged; on success, appends one record with the stripped fields and the id `get_next_post_id()` gives, one above the largest existing id (1 for an empty store), and keeps earlier records unchanged |
| Posts.AppendPreservesValid | backend/backend_app.py:43-49 | appending a well-formed record whose id is above every stored id keeps the store valid |
| Posts.CreatePreservesValid | backend/backend_app.py:28-49 | create keeps ids distinct and positive and stored fields non-blank |
| Posts.Delete | backend/backend_app.py:55-64 | reports not-found exactly when no record has the id, and then leaves the store unchanged; otherwise removes only the first record with the id, keeps the others in order, and shortens the store by one |
| Posts.DeleteRemovesOnlyId | backend/backend_app.py:55-60 | with distinct ids, no record with the deleted id remains and every record with another id survives |
| Posts.RemovePreservesValid | backend/backend_app.py:57 | removing any one record keeps the store valid |
| Posts.DeletePreservesValid | backend/backend_app.py:55-64 | delete keeps the store valid |
| Posts.CreateThenDelete | backend/backend_app.py:43-60 | deleting the id that create just assigned gives back the store as it was before the create |
| Posts.Overwrite | backend/backend_app.py:76-84 | a field supplied and non-blank is replaced by its stripped value; an absent or blank field leaves the stored value |
| Posts.Patch | backend/backend_app.py:76-84 | the id never changes; each field becomes the stripped input when that input is supplied and non-blank, and otherwise keeps its stored value |
| Posts.Update | backend/backend_app.py:70-86 | reports not-found exactly when no record has the id, and then leaves the store unchanged whatever the body; otherwise patches only the first record with the id in place and keeps the length and every other record |
| Posts.PatchPreservesWellFormed | backend/backend_app.py:76-84 | a partial update never blanks a field of a well-formed record |
| Posts.UpdatePreservesValid | backend/backend_app.py:70-86 | update keeps ids distinct and positive and stored fields non-blank |
| Posts.UpdateIdempotent | backend/backend_app.py:76-84 | applying the same partial update twice gives the same result and store as applying it once |
| Posts.PatchWithOwnValues | backend/backend_app.py:76-84 | supplying a record's own stripped values leaves the record as it is |
| Posts.UpdateWithOwnValues | backend/backend_app.py:70-86 | updating a record with its own stripped title and content returns it and leaves the store unchanged |
| Posts.CreateThenUpdateSameValues | backend/backend_app.py:43-50 | updating a freshly created post with its own stripped title and content returns it unchanged and leaves the store unchanged |
| Api.Step | backend/backend_app.py:20-86 | listing returns the store and leaves it unchanged. A create fails exactly when a field is blank, with the exact list of blank fields; otherwise it appends one record holding the stripped fields and the id `get_next_post_id()` gives (1 for an empty store, else one above the largest id). An update or delete fails exactly when no record has the requested id, with `NotFound` of that id. Otherwise an update replaces only the first record with the id by its field-by-field patch, and a delete removes exactly that first record and keeps the others in order; both answer with the requested id. A failed request leaves the store unchanged |
| Api.StepPreservesValid | backend/backend_app.py:20-86 | every request keeps the store valid |
| Api.RunPreservesValid | backend/backend_app.py:20-86 | any sequence of requests keeps a valid store valid |
| Api.ReachableValid | backend/backend_app.py:7-10 | every store reachable from the seed has distinct positive ids and no blank title or content |

## Left out

- Flask routing, `jsonify`, HTTP status codes (201, 400, 404, 200), CORS and
  `app.run` (lines 1-5, 20-26, 91-92). These are framework I/O. The outcome
  datatypes carry the same information.
- Request decoding. This covers `request.get_json(silent=True) or {}` and the
  `str(...)` coercion of arbitrary JSON values. Fields are modelled as
  `Option<string>`. So a non-string JSON value is not modelled. For example,
  `null` is coerced to the non-blank text "None" and stored.
- The error and confirmation message texts. The model keeps only the data
  they carry: the missing field list and the id.
- Search and sorted views: `backend/backend_app.py` has no such routes, so
  nothing is modelled for them.
- Concurrent access to the module-global list under a threaded server. The
  model is sequential: each request is one atomic step.
- The Unicode database behind `str.isspace`. `Text.IsWhitespace` lists the
  code points Python treats as whitespace. Only `Posts.SeedValid` depends on
  that choice: the first letters of the seed fields must not be whitespace.
- Python's `max` on an empty store is never reached, because the empty case
  returns 1 first. Its behaviour is therefore not modelled.

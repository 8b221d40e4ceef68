# MinionDocApi CRUD core in Dafny

MinionDocApi is a small HTTP service. It keeps arbitrary "entity collections" in one
JSON document: each top-level key is a collection name and each value is an array of
objects. Five routes under `/api` list a collection, read, create, replace and delete
one item. Every request reads the whole document, changes it in memory and (for a
write) writes the whole document back.

This project models that core as pure functions. The document read at the start of
a request is a `Store`, a `map<string, seq<Record>>`. A `Record` is a
`map<string, Json>` over a tagged `Json` datatype. Each handler returns a `Reply`:
the HTTP `Response` (status and optional JSON body) together with the store as it
stands after the request. The identifier `uuidv4()` would generate is passed in as
the parameter `freshId`.

Modules:

- `JsonValues` (`json.dfy`): the `Json` datatype, `Record`, `Option`, and `Spread`, the
  object literal `{ ...a, ...b }`.
- `DocumentStore` (`store.dfy`): the store, id matching (`i.id === id`),
  `findIndex` (`FindIndex`), `filter` (`Remove`), and the two ways records are built.
  `NewItem` builds the record for create and `Merged` builds it for replace. Their full
  contracts are the predicates `IsCreatedFrom` and `IsMergeOf`.
- `Handlers` (`handlers.dfy`): the five route handlers `List`, `Get`, `Create`,
  `Replace` and `Delete`.
- `Router` (`router.dfy`): the route table, from method and path to operation, and
  `Handle`, which dispatches one request.
- `Properties` (`properties.dfy`): facts relating several requests. They cover read
  after create, delete twice, id uniqueness, PUT idempotence, N creates followed by a
  list, and one item's whole life cycle.

Three points of `index.js` shape the model:

- **Create.** The literal `{ id: uuidv4(), ...req.body }` spreads the body after the
  generated id, so a body `id` overrides the generated one. `IsCreatedFrom` states
  this. `Properties.CreateBodyIdCanDuplicate` shows the consequence: a create can add
  a second record with an id already in use, and a later read of that id returns the
  older record.
- **Id uniqueness.** Nothing in `index.js` enforces unique ids within a collection.
  The model therefore proves uniqueness is kept only under explicit hypotheses
  (`CreatePreservesUniqueIds`, `ReplacePreservesUniqueIds`, `DeleteUniqueDropsOne`,
  `CreateAllUniqueIds`).
- **Delete's not-found check.** Delete compares the array length before and after
  filtering. `Handlers.Delete` proves that this comparison means "no record had the id"
  whether or not ids are unique.

## Model

| member | source | states |
|---|---|---|
| Handlers.List | index.js:33-41 | Status 200. The body is the stored array when the collection exists and an empty array when it does not. This is `data[req.params.entity] || []`, which `DocumentStore.Items` models and which get, replace and delete also use (index.js:46, 79, 104). The store is never modified. |
| Handlers.Get | index.js:43-52 | Status 200 exactly when the collection exists and some record's `id` is the path id. The body is then the first such record. Otherwise the reply is the fixed 404 `{"error":"Item not found"}`. The store is unchanged either way. |
| Handlers.Create | index.js:54-74 | Status 201. The new collection is the old one (or empty when absent) followed by exactly the returned record. The store's keys gain only the target collection. Every other collection is unchanged. The returned record satisfies `IsCreatedFrom`. |
| Handlers.Replace | index.js:76-99 | When the collection is absent or has no record with the path id: 404, with the store unchanged and no collection created. Otherwise: 200, with the same keys and every other collection unchanged. The collection changes only at the first matching position, its length is kept, and the new record there is the merge of the old one with the body. The response body is that merged record. |
| Handlers.Delete | index.js:101-117 | 404 if and only if no record of the collection has the path id (an absent collection included), and then the store is unchanged. Otherwise 204 with an empty body, and the collection becomes its filtered version. Every other collection is unchanged. |
| JsonValues.Spread | index.js:63-66 | The object literal `{ ...a, ...b }` has exactly the fields of both objects. Where both have a field, the value from `b` wins; elsewhere `a`'s value is kept. The create and replace records are built with it, and the replace merge is at index.js:86-90. |
| DocumentStore.StrictIdMatch | index.js:47 | The comparison `i.id === req.params.id`, also used at index.js:80 and 105, holds exactly when the record's `id` is that very string. A numeric or missing `id` matches nothing, so `{"id":7}` is not found under `/7`. A record matches at most one id. |
| DocumentStore.FindIndex | index.js:80 | `findIndex` finds no position exactly when no record has the id. A position it returns holds a matching record with no matching record before it. |
| DocumentStore.Remove | index.js:105 | `filter` keeps exactly the records whose `id` is not the given id. The result is no longer than the input, and it is equally long if and only if no record had the id. |
| DocumentStore.RemoveAppend | index.js:105 | Filtering distributes over concatenation, so the surviving records keep their relative order. |
| DocumentStore.RemoveIdempotent | index.js:105-109 | Filtering an id twice equals filtering it once, and no record with that id remains. |
| DocumentStore.RemoveUniqueDropsOne | index.js:105-107 | If ids are unique, a filter that finds the id removes exactly one record. |
| DocumentStore.RemoveKeepsUniqueIds | index.js:105 | Filtering a collection with unique ids leaves unique ids. |
| DocumentStore.NewItem | index.js:63-66 | The created record has every body field with the body's value and no other fields besides `id`. Its `id` is the generated one only when the body has none. |
| DocumentStore.Merged | index.js:86-90 | The merged record has the fields of the prior record, of the body and `id`. Body values win over prior values. `id` is forced to the path id even when the body carries another. |
| DocumentStore.CreatedFromIsUnique | index.js:63-66 | The create contract determines the record completely. |
| DocumentStore.MergeOfIsUnique | index.js:86-90 | The replace contract determines the merged record completely. |
| DocumentStore.MergedIdempotent | index.js:86-90 | Merging the same body into an already-merged record changes nothing. |
| DocumentStore.UpdateTwice | index.js:80-92 | After the first matching record is rewritten with its merge, it is still the first match, and rewriting it again with the same body changes nothing. |
| Router.Route | index.js:33-101 | A request that is routed is a well-formed operation (non-empty route parameters). Its method is the one that operation is registered under, and its path fits the operation's pattern, with the fixed `api` segment matched in any letter case. |
| Router.RouteExactly | index.js:33-101 | A request selects an operation if and only if it has that operation's method, its path fits that operation's pattern (`api` in any letter case, the parameters as given), and for POST and PUT it carries that operation's body. |
| Router.Handle | index.js:14-117 | Every reply is 200, 201, 204 or 404. A 404 never changes the store, and neither does a GET. No collection is ever removed. Collections other than the one named in the path are never changed. |
| Router.HandleRouteTable | index.js:14-117 | Each registered method and path shape reaches its handler with the request's parameters and body: GET and POST on `/api/:entity` give list and create, and GET, PUT and DELETE on `/api/:entity/:id` give get, replace and delete. An OPTIONS request on any path is ended by the CORS middleware with 204 and an empty body. Any other request is unrouted exactly when it fits none of the shapes, and then it gets the framework's 404. Neither case changes the store. |
| Router.ApiSegmentSpellings | index.js:9 | The fixed segment is accepted in exactly its eight letter-case spellings, because the application keeps the framework's case-insensitive routing. |
| Router.UpperCaseApiRoutes | index.js:33 | Concrete cases: `GET /API/tasks` lists `tasks`, and `DELETE /Api/tasks/7` deletes item `7`. |
| Properties.UnwrittenCollectionIsEmpty | index.js:35-48 | On a collection never written, list returns 200 with an empty array. Get, replace (with any body) and delete all return the 404 reply. The store is unchanged in every case. |
| Properties.CreateThenGet | index.js:63-70 | After a create, reading the created record's id returns exactly that record, provided no older record had that id. The id is the generated one when the body has no `id`, and the body's own string `id` otherwise. |
| Properties.CreateBodyIdCanDuplicate | index.js:63-68 | Concrete case: a body `id` equal to an existing one yields two records with that id, so create does not keep ids unique, and a later read of that id returns the older record. |
| Properties.CreatePreservesUniqueIds | index.js:63-68 | If the created record's string `id` is unused in the collection, create keeps ids unique. That id is the generated one when the body has no `id`, and the body's own otherwise. A body `id` already in use breaks uniqueness (`CreateBodyIdCanDuplicate`). |
| Properties.ReplaceAt | index.js:80-95 | Once the first matching position is known, replace writes the merged record exactly there and returns it with 200. |
| Properties.ReplaceKeepsIds | index.js:86-92 | A successful replace leaves every position matching exactly the ids it matched before. |
| Properties.ReplacePreservesUniqueIds | index.js:86-92 | Replace keeps a collection's ids unique. |
| Properties.ReplaceIdempotent | index.js:76-95 | Sending the same PUT twice gives the same store and the same response as sending it once. |
| Properties.DeleteThenGetOrDelete | index.js:104-111 | After a delete, reading that id is 404. Deleting it again is 404 and leaves the store unchanged. |
| Properties.DeleteUniqueDropsOne | index.js:104-111 | With unique ids, a successful delete removes exactly one record, and ids stay unique. |
| Properties.CreateAllOthersUnchanged | index.js:59-68 | A run of creates into one collection leaves every other collection unchanged. |
| Properties.CreateAllAppends | index.js:59-68 | A run of N creates appends the N built records after the existing ones, in request order. |
| Properties.CreateAllUniqueIds | index.js:63-68 | N creates with id-less bodies and distinct, unused generated ids keep the collection's ids unique. |
| Properties.CreateNThenList | index.js:35-68 | Creating N records in a fresh collection and then listing it returns exactly those N records in creation order. |
| Properties.TaskLifecycle | index.js:54-117 | One item's life: POST `{"title":"buy milk"}` returns 201 with the id and title. GET returns 200 with the same record. PUT `{"done":true}` returns 200 with all three fields. DELETE returns 204, and a second GET returns 404. |

## Left out

- File I/O is not modelled: `fs.readFile`/`fs.writeFile` and `initializeDataFile`, which creates `{}` at startup. The store is a value passed in and returned.
- JSON parsing and printing of the store file are not modelled, and neither are the catch-all 500 `{"error":"Internal server error"}` replies. They happen when reading, parsing or writing the file fails, or when the file has one of the shapes described next. That includes a top-level value that is not an object: a top-level `null` makes every handler fail with a 500 at `data[req.params.entity]`.
- A store file whose top level is not an object, or whose collection value is not an array of objects, is not modelled; the types rule it out. The service itself only ever writes arrays of objects, starting from `{}`, so only a hand-edited file leaves these types. On such a file the source behaves as follows. List sends any truthy value as it is (`{"tasks":5}` lists as `5`) and a falsy one (`0`, `""`, `null`) as `[]`. Create replaces a falsy value with `[]` and succeeds, but fails with 500 on a truthy non-array, which has no `push`. Get, replace and delete fail with 500 on a truthy non-array, which has no `find`/`findIndex`/`filter`. Inside an array, a primitive element has no `id` and simply never matches, while a `null` element makes the `i.id` lookup throw, which leads to a 500.
- Collection names that hit JavaScript prototype properties (`__proto__`, `toString`, ...) are not modelled. The model treats the store as a plain map.
- A JSON array as a request body is not modelled: the body parser accepts one, but the model's body is always an object. Spreading an array would add the index keys `"0"`, `"1"`, ...
- `uuidv4()` is replaced by the parameter `freshId`. Its randomness and global uniqueness are not modelled. Where a lemma needs an unused id, it states that as a hypothesis.
- Express routing details are not modelled: percent-decoding of the route parameters, trailing-slash tolerance, HEAD handled as GET, the CORS headers, morgan logging, and body-parser. The router receives the path already split into segments and treats the parameters as given. The framework's case-insensitive match of the fixed `api` segment is modelled.
- Router.Handle: an unmatched route gets status 404 with no body. The framework's default HTML "Cannot GET ..." page is not modelled. The CORS middleware's 204 reply to OPTIONS is modelled, but its response headers are not.
- Concurrency is not modelled. Overlapping read-modify-write cycles between requests can lose updates; each handler here is one sequential transition.
- The order of keys inside a JSON object is not modelled, because records are maps. It affects only how the file and the responses are printed.
- JSON numbers are exact reals. Floating-point details are not modelled; the service never computes with them.
- Startup logging, the banner text and the `PORT` setting are not modelled.

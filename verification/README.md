# Task store service — Dafny model

The service keeps a map from task id to task record in process memory. It is
seeded at start-up with two sample tasks, "1" and "2". Four HTTP routes work on it:

- `GET /tasks` lists every stored task.
- `POST /tasks` creates a task from a JSON body.
- `GET /tasks/{id}` fetches one task.
- `DELETE /tasks/{id}` removes one task.

This project models that store and the decisions of the four handlers. Each handler is a pure
function from the store before the request to an `Outcome`: the reply (status code and payload)
and the store after the request.

- `tasks.dfy`, module `TaskStore`: the `Task` record, the `Store` map, the seeded store, and the
  invariant `WellKeyed`. The invariant says every key is the id of the task stored under it.
- `handlers.dfy`, module `Handlers`: how a POST body is classified (`ReadBody`), the four handlers
  (`List`, `Create`, `Fetch`, `Delete`), and lemmas that relate them to each other and to the invariant.
- `listing.dfy`, module `Listing`: the body of `GET /tasks`, a JSON object. It is modelled as the
  sequence of its members. encoding/json writes a map's keys in ascending byte order, which on
  UTF-8 text is code-point order. `ListResponse` takes the list handler's snapshot and writes it
  out as such a listing. A client that decodes the listing gets the store back.
- `server.dfy`, module `Server`: routing a request to its handler (`Dispatch`), and running a
  sequence of requests one after another (`Run`, and the loop `Serve`). It also has two example request
  scenarios, starting from the seeded store.

The reply status is an `int` carrying the net/http code: 200, 201, 400, 404, 409 or 500. A POST
body is abstracted to what reading and decoding it yields: `Unreadable`, `Empty`, `Malformed`, or
`Parsed(task)`. The path parameter of the two `{id}` routes is a plain string input.

Both the list and the fetch handler write 500 when `json.Marshal` fails (precode.go:53-56,
121-124), which cannot happen for these string-only records. Their other `WriteHeader` calls come
after a `Write` and are ignored, because the first `Write` already committed 200. The model's
status for both routes is therefore 200.

## Model

| member | source | states |
|---|---|---|
| TaskStore.Seed | precode.go:21-43 | The start-up store holds exactly the ids "1" and "2", and each one is stored under its own id |
| Handlers.ReadBody | precode.go:73-95 | A read failure takes precedence over every other check. An empty body is rejected before the decoder's verdict is consulted. Only a non-empty body that decodes yields a task, and that task is the decoded one |
| Handlers.List | precode.go:51-69 | Listing never changes the store. Its status is 200, and its payload holds exactly the stored keys, each with its stored task |
| Handlers.Create | precode.go:72-108 | 500 if and only if the body could not be read; 400 if and only if it is empty or malformed; 409 if and only if the parsed id is already stored; 201 if and only if it is new. Every non-201 outcome leaves the store unchanged. On 201 the key set grows by exactly the new id, that id maps to the submitted task, and every old key keeps its task |
| Handlers.Fetch | precode.go:111-136 | Fetch never changes the store. It returns 200 and the stored task if and only if the id is present, and otherwise 404 with no body |
| Handlers.Delete | precode.go:139-150 | 200 if and only if the id is present, otherwise 404. A miss leaves the store unchanged. The new key set is the old one minus the id, and every remaining key keeps its task |
| Handlers.CreateChecksInOrder | precode.go:72-108 | On a raw request, the create handler answers 500 exactly when the read failed, 400 exactly when the body is empty or does not decode (an empty body is a 400 whatever the decoder would say), 409 or 201 by whether the decoded id is stored, and only a 201 changes the store |
| Handlers.CreateThenFetch | precode.go:97-135 | Creating a task with a fresh id gives 201, and a following fetch of that id returns exactly the submitted task |
| Handlers.DeleteThenFetch | precode.go:111-150 | Deleting a present id gives 200, and a following fetch of that id gives 404 |
| Handlers.ConflictKeepsRecord | precode.go:97-102 | A create whose id is already stored gives 409, and the record stored under that id is still the original one |
| Handlers.CreatePreservesWellKeyed | precode.go:104 | Create inserts a task under its own id, so the key-equals-id invariant survives every create outcome |
| Handlers.DeletePreservesWellKeyed | precode.go:148 | Delete keeps the key-equals-id invariant |
| Handlers.DeleteUndoesCreate | precode.go:97-148 | Deleting a task that was just created under a fresh id gives back the original store |
| Handlers.CreateUndoesDelete | precode.go:104-148 | In a well-keyed store, re-creating a task just deleted succeeds and restores the original store |
| Listing.Insert | precode.go:52 | Inserting a member with a new key into a key-sorted member list keeps it strictly sorted, adds one member, and keeps every other member |
| Listing.ListEntries | precode.go:51-60 | The list body's members are strictly ascending by key. Each member is a stored (id, task) pair, every stored pair appears, and decoding the members gives back the store |
| Listing.ListResponse | precode.go:51-68 | GET /tasks answers 200 with the members strictly ascending by key, exactly the stored pairs, decoding back to the store |
| Listing.DecodeListing | precode.go:52-60 | Any key-sorted member list that holds exactly a store's pairs decodes to that store |
| Server.Dispatch | precode.go:45-150 | Every request gets one of the six known statuses. An error status (400 or above) means the store is unchanged. A request changes the store at most at its own key: the created task's id or the deleted id. Lists and fetches change nothing, and every route keeps the key-equals-id invariant |
| Server.Run | precode.go:45-150 | A run of requests gives one reply per request, each with a known status |
| Server.RunPreservesWellKeyed | precode.go:21-150 | The key-equals-id invariant holds after any sequence of requests that starts from a well-keyed store |
| Server.ReadsLeaveStoreUnchanged | precode.go:51-136 | Any sequence of list and fetch requests leaves the store exactly as it was |
| Server.FailedRunLeavesStoreUnchanged | precode.go:72-146 | A sequence of requests that all get error statuses leaves the store exactly as it was |
| Server.Serve | precode.go:21-156 | Serving requests in order from the seeded store yields exactly the replies and final store of a run of the handlers over those requests (so one reply per request), and the final store is well keyed |
| Server.CreateFetchDeleteRun | precode.go:97-150 | From any store without the task's id: create, fetch, delete, fetch of that id give 201, 200 with the task, 200, 404, and the store ends as it began |
| Server.CreateFetchDeleteScenario | precode.go:21-150 | From the seeded store: creating task "3" gives 201, fetching it gives 200 with that task, deleting it gives 200, fetching it again gives 404, and the store ends as seeded |
| Server.RejectedCreatesScenario | precode.go:21-102 | From the seeded store: an empty body gives 400, a malformed body gives 400, and a task with the seeded id "1" gives 409, with the store unchanged throughout |

## Left out

- Handlers.CreateThenFetch: holds for every id, but on the wire create accepts ids that the `{id}` routes cannot carry. A body such as `{}` or `null` gives the empty id, and chi does not match an empty path segment; an id containing "/" cannot be one segment. Such a task is created with 201 and shows up in the list, but can never be fetched or deleted. The same applies to Handlers.DeleteUndoesCreate and Server.CreateFetchDeleteRun, because the model's fetch and delete take the id as a plain string.
- Routing with chi and path-parameter extraction (precode.go:46, 112, 140): library code. The id is a plain string input.
- JSON encoding and decoding (precode.go:52, 90, 120): library code. A POST body is abstracted to `Unreadable | Empty | Malformed | Parsed(task)`. The list body is modelled only as its ordered (key, task) members, not as JSON text with escaping. Unknown fields, case-insensitive field matching and a `null` body are decoder details folded into `Parsed` or `Malformed`.
- `null` versus `[]` for `applications`: Go keeps a nil slice distinct from an empty one on the wire. The model's `seq<string>` does not distinguish them.
- Handlers.List: the 500 paths (precode.go:53-65) are not modelled. Marshalling a map of string-only records cannot fail, and a failed `Write` has already committed status 200, so the later `WriteHeader(500)` is ignored.
- Handlers.Fetch: the 500 paths (precode.go:121-133) are not modelled, for the same reasons as for List.
- Logging, `ListenAndServe` and the port binding (precode.go:48, 152-155): I/O.
- Concurrent requests: the source reads and writes the global map with no lock, which is a data race. The model handles requests strictly one at a time.

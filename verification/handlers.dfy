/**
 The decisions of the four route handlers, each a pure transition from the
 store before the request to a reply and the store after it.
 */
module Handlers {
  import opened TaskStore

  // The net/http status codes the handlers write.
  const StatusOK := 200
  const StatusCreated := 201
  const StatusBadRequest := 400
  const StatusNotFound := 404
  const StatusConflict := 409
  const StatusInternalServerError := 500

  /** What json.Unmarshal made of a non-empty body. */
  datatype DecodeResult = DecodeError | DecodeOk(task: Task)

  /** A POST body once read and decoded, in the order the handler checks it. */
  datatype Body = Unreadable | Empty | Malformed | Parsed(task: Task)

  /** What the response carries besides its status line. */
  datatype Payload = NoBody | OneTask(task: Task) | AllTasks(tasks: Store)

  datatype Reply = Reply(status: int, payload: Payload)

  /** A handler's effect: the reply it writes and the store it leaves behind. */
  datatype Outcome = Outcome(reply: Reply, store: Store)

  /** The two stores hold the same thing (or nothing) under key `k`. */
  predicate Agrees(m: Store, m': Store, k: string)
  {
    (k in m <==> k in m') && (k in m ==> m[k] == m'[k])
  }

  /**
   Classifies a POST body: a read failure wins over everything, an empty body
   is rejected before the decoder is consulted, and only then does the
   decoder's verdict matter.
   */
  function ReadBody(readOk: bool, raw: seq<bv8>, decoded: DecodeResult): (b: Body)
    ensures b.Unreadable? <==> !readOk
    ensures b.Empty? <==> readOk && |raw| == 0
    ensures b.Malformed? <==> readOk && |raw| > 0 && decoded.DecodeError?
    ensures b.Parsed? <==> readOk && |raw| > 0 && decoded.DecodeOk?
    ensures b.Parsed? ==> b.task == decoded.task
  {
    if !readOk then Unreadable
    else if |raw| == 0 then Empty
    else match decoded
      case DecodeError => Malformed
      case DecodeOk(t) => Parsed(t)
  }

  /** GET /tasks: a read-only snapshot of the whole store. */
  function List(m: Store): (r: Outcome)
    ensures r.store == m
    ensures r.reply.status == StatusOK
    ensures r.reply.payload.AllTasks?
    ensures r.reply.payload.tasks.Keys == m.Keys
    ensures forall k :: k in m ==> r.reply.payload.tasks[k] == m[k]
  {
    Outcome(Reply(StatusOK, AllTasks(m)), m)
  }

  /** POST /tasks: insert a new task under its own id, refusing duplicates. */
  function Create(m: Store, body: Body): (r: Outcome)
    ensures r.reply.payload == NoBody
    ensures r.reply.status == StatusInternalServerError <==> body.Unreadable?
    ensures r.reply.status == StatusBadRequest <==> body.Empty? || body.Malformed?
    ensures r.reply.status == StatusConflict <==> body.Parsed? && body.task.id in m
    ensures r.reply.status == StatusCreated <==> body.Parsed? && body.task.id !in m
    ensures r.reply.status != StatusCreated ==> r.store == m
    ensures r.reply.status == StatusCreated ==>
              && r.store.Keys == m.Keys + {body.task.id}
              && r.store[body.task.id] == body.task
              && forall k :: k in m ==> r.store[k] == m[k]
  {
    match body
    case Unreadable => Outcome(Reply(StatusInternalServerError, NoBody), m)
    case Empty => Outcome(Reply(StatusBadRequest, NoBody), m)
    case Malformed => Outcome(Reply(StatusBadRequest, NoBody), m)
    case Parsed(t) =>
      if t.id in m then Outcome(Reply(StatusConflict, NoBody), m)
      else Outcome(Reply(StatusCreated, NoBody), m[t.id := t])
  }

  /** GET /tasks/{id}: the stored task, or not-found. */
  function Fetch(m: Store, id: string): (r: Outcome)
    ensures r.store == m
    ensures r.reply.status == StatusOK <==> id in m
    ensures r.reply.status == StatusNotFound <==> id !in m
    ensures id in m ==> r.reply.payload == OneTask(m[id])
    ensures id !in m ==> r.reply.payload == NoBody
  {
    if id !in m then Outcome(Reply(StatusNotFound, NoBody), m)
    else Outcome(Reply(StatusOK, OneTask(m[id])), m)
  }

  /** DELETE /tasks/{id}: drop the entry, or not-found. */
  function Delete(m: Store, id: string): (r: Outcome)
    ensures r.reply.payload == NoBody
    ensures r.reply.status == StatusOK <==> id in m
    ensures r.reply.status == StatusNotFound <==> id !in m
    ensures id !in m ==> r.store == m
    ensures r.store.Keys == m.Keys - {id}
    ensures forall k :: k in r.store ==> r.store[k] == m[k]
  {
    if id !in m then Outcome(Reply(StatusNotFound, NoBody), m)
    else Outcome(Reply(StatusOK, NoBody), m - {id})
  }

  // ---------------------------------------------------------------------
  // Properties relating the handlers to each other and to the invariant.
  // ---------------------------------------------------------------------

  /**
   The create handler on a raw request: a read failure is a 500 and an empty
   body a 400 whatever the decoder would say, a decode failure is a 400, and
   none of these touches the store.
   */
  lemma CreateChecksInOrder(m: Store, readOk: bool, raw: seq<bv8>, decoded: DecodeResult)
    ensures var r := Create(m, ReadBody(readOk, raw, decoded));
      && (r.reply.status == StatusInternalServerError <==> !readOk)
      && (r.reply.status == StatusBadRequest <==> readOk && (|raw| == 0 || decoded.DecodeError?))
      && (r.reply.status == StatusConflict <==> readOk && |raw| > 0 && decoded.DecodeOk? && decoded.task.id in m)
      && (r.reply.status == StatusCreated <==> readOk && |raw| > 0 && decoded.DecodeOk? && decoded.task.id !in m)
      && (r.reply.status != StatusCreated ==> r.store == m)
  {
  }

  /** A successful create is observable: fetching the new id returns exactly the submitted task. */
  lemma CreateThenFetch(m: Store, t: Task)
    requires t.id !in m
    ensures Create(m, Parsed(t)).reply.status == StatusCreated
    ensures Fetch(Create(m, Parsed(t)).store, t.id).reply == Reply(StatusOK, OneTask(t))
  {
  }

  /** After a successful delete the id is gone: a fetch of it is not-found. */
  lemma DeleteThenFetch(m: Store, id: string)
    requires id in m
    ensures Delete(m, id).reply.status == StatusOK
    ensures Fetch(Delete(m, id).store, id).reply.status == StatusNotFound
  {
  }

  /** A duplicate create is refused and keeps the record already stored under that id. */
  lemma ConflictKeepsRecord(m: Store, t: Task)
    requires t.id in m
    ensures Create(m, Parsed(t)).reply.status == StatusConflict
    ensures Fetch(Create(m, Parsed(t)).store, t.id).reply == Reply(StatusOK, OneTask(m[t.id]))
  {
  }

  /** Create keeps every key equal to its task's id. */
  lemma CreatePreservesWellKeyed(m: Store, body: Body)
    requires WellKeyed(m)
    ensures WellKeyed(Create(m, body).store)
  {
  }

  /** Delete keeps every key equal to its task's id. */
  lemma DeletePreservesWellKeyed(m: Store, id: string)
    requires WellKeyed(m)
    ensures WellKeyed(Delete(m, id).store)
  {
  }

  /** Deleting what was just created gives back the store as it was. */
  lemma DeleteUndoesCreate(m: Store, t: Task)
    requires t.id !in m
    ensures Delete(Create(m, Parsed(t)).store, t.id).store == m
  {
  }

  /** In a well-keyed store, re-creating a deleted task restores the store. */
  lemma CreateUndoesDelete(m: Store, id: string)
    requires WellKeyed(m)
    requires id in m
    ensures Create(Delete(m, id).store, Parsed(m[id])).reply.status == StatusCreated
    ensures Create(Delete(m, id).store, Parsed(m[id])).store == m
  {
  }
}

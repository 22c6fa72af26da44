/**
 The router and the service run as a whole: each request is routed to its
 handler and handled against the store the previous request left behind.
 Requests are taken one at a time.
 */
module Server {
  import opened TaskStore
  import opened Handlers

  /** A request as the router sees it, the path parameter already extracted. */
  datatype Request =
    | ListTasks
    | CreateTask(body: Body)
    | FetchTask(id: string)
    | DeleteTask(id: string)

  /** The one key a request may change, if any. */
  predicate Touches(req: Request, k: string)
  {
    match req
    case CreateTask(Parsed(t)) => k == t.id
    case DeleteTask(id) => k == id
    case _ => false
  }

  /** The statuses the service ever writes. */
  predicate KnownStatus(s: int)
  {
    s in {StatusOK, StatusCreated, StatusBadRequest, StatusNotFound, StatusConflict, StatusInternalServerError}
  }

  /** Routes a request to its handler. */
  function Dispatch(m: Store, req: Request): (r: Outcome)
    ensures KnownStatus(r.reply.status)
    ensures r.reply.status >= 400 ==> r.store == m
    ensures forall k :: !Touches(req, k) ==> Agrees(m, r.store, k)
    ensures WellKeyed(m) ==> WellKeyed(r.store)
    ensures req.ListTasks? || req.FetchTask? ==> r.store == m
  {
    match req
    case ListTasks => List(m)
    case CreateTask(body) => Create(m, body)
    case FetchTask(id) => Fetch(m, id)
    case DeleteTask(id) => Delete(m, id)
  }

  /** The replies to a run of requests, in order, and the store after the last one. */
  datatype Trace = Trace(replies: seq<Reply>, store: Store)

  /** Handles `reqs` one after another, starting from store `m`. */
  function Run(m: Store, reqs: seq<Request>): (t: Trace)
    ensures |t.replies| == |reqs|
    ensures forall i :: 0 <= i < |t.replies| ==> KnownStatus(t.replies[i].status)
    decreases |reqs|
  {
    if reqs == [] then Trace([], m)
    else
      var before := Run(m, reqs[..|reqs| - 1]);
      var o := Dispatch(before.store, reqs[|reqs| - 1]);
      Trace(before.replies + [o.reply], o.store)
  }

  /** One more request extends a run by that request's reply and store. */
  lemma RunSnoc(m: Store, reqs: seq<Request>, req: Request)
    ensures Run(m, reqs + [req]).replies == Run(m, reqs).replies + [Dispatch(Run(m, reqs).store, req).reply]
    ensures Run(m, reqs + [req]).store == Dispatch(Run(m, reqs).store, req).store
  {
  }

  /** The key invariant holds after any run that starts from a store where it holds. */
  lemma {:induction false} RunPreservesWellKeyed(m: Store, reqs: seq<Request>)
    requires WellKeyed(m)
    ensures WellKeyed(Run(m, reqs).store)
    decreases |reqs|
  {
    if reqs != [] {
      RunPreservesWellKeyed(m, reqs[..|reqs| - 1]);
    }
  }

  /** Only lists and fetches: the store is the same at the end. */
  lemma {:induction false} ReadsLeaveStoreUnchanged(m: Store, reqs: seq<Request>)
    requires forall i :: 0 <= i < |reqs| ==> reqs[i].ListTasks? || reqs[i].FetchTask?
    ensures Run(m, reqs).store == m
    decreases |reqs|
  {
    if reqs != [] {
      ReadsLeaveStoreUnchanged(m, reqs[..|reqs| - 1]);
    }
  }

  /** A run whose every reply is an error leaves the store as it found it. */
  lemma {:induction false} FailedRunLeavesStoreUnchanged(m: Store, reqs: seq<Request>)
    requires forall i :: 0 <= i < |reqs| ==> Run(m, reqs).replies[i].status >= 400
    ensures Run(m, reqs).store == m
    decreases |reqs|
  {
    if reqs != [] {
      var front := reqs[..|reqs| - 1];
      var before := Run(m, front);
      assert forall i :: 0 <= i < |front| ==> before.replies[i] == Run(m, reqs).replies[i];
      FailedRunLeavesStoreUnchanged(m, front);
      assert Dispatch(before.store, reqs[|reqs| - 1]).reply == Run(m, reqs).replies[|reqs| - 1];
    }
  }

  /** Serves the requests in order, starting from the seeded store. */
  method Serve(reqs: seq<Request>) returns (replies: seq<Reply>, store: Store)
    ensures Trace(replies, store) == Run(Seed(), reqs)
    ensures WellKeyed(store)
  {
    replies := [];
    store := Seed();
    var i := 0;
    while i < |reqs|
      invariant 0 <= i <= |reqs|
      invariant Trace(replies, store) == Run(Seed(), reqs[..i])
      invariant WellKeyed(store)
    {
      assert reqs[..i + 1][..i] == reqs[..i];
      var o := Dispatch(store, reqs[i]);
      replies := replies + [o.reply];
      store := o.store;
      i := i + 1;
    }
    assert reqs[..|reqs|] == reqs;
  }

  // ---------------------------------------------------------------------
  // Two example request scenarios, starting from the seeded store.
  // ---------------------------------------------------------------------

  /**
   From any store without `t.id`: creating `t`, fetching it, deleting it and
   fetching it again gives 201, 200 with `t`, 200, 404, and the store ends as
   it began.
   */
  lemma CreateFetchDeleteRun(m: Store, t: Task)
    requires t.id !in m
    ensures
      var reqs := [CreateTask(Parsed(t)), FetchTask(t.id), DeleteTask(t.id), FetchTask(t.id)];
      var trace := Run(m, reqs);
      && trace.replies == [
           Reply(StatusCreated, NoBody),
           Reply(StatusOK, OneTask(t)),
           Reply(StatusOK, NoBody),
           Reply(StatusNotFound, NoBody)]
      && trace.store == m
  {
    var r1, r2, r3, r4 := CreateTask(Parsed(t)), FetchTask(t.id), DeleteTask(t.id), FetchTask(t.id);
    assert [r1] == [] + [r1];
    assert [r1, r2] == [r1] + [r2];
    assert [r1, r2, r3] == [r1, r2] + [r3];
    assert [r1, r2, r3, r4] == [r1, r2, r3] + [r4];
    RunSnoc(m, [], r1);
    RunSnoc(m, [r1], r2);
    RunSnoc(m, [r1, r2], r3);
    RunSnoc(m, [r1, r2, r3], r4);
    assert m[t.id := t] - {t.id} == m;
  }

  /** The example run from the seeded store: create "3", fetch it, delete it, fetch it again. */
  lemma CreateFetchDeleteScenario()
    ensures
      var t := Task("3", "x", "y", ["a"]);
      var reqs := [CreateTask(Parsed(t)), FetchTask("3"), DeleteTask("3"), FetchTask("3")];
      var trace := Run(Seed(), reqs);
      && trace.replies == [
           Reply(StatusCreated, NoBody),
           Reply(StatusOK, OneTask(t)),
           Reply(StatusOK, NoBody),
           Reply(StatusNotFound, NoBody)]
      && trace.store == Seed()
  {
    CreateFetchDeleteRun(Seed(), Task("3", "x", "y", ["a"]));
  }

  /** An empty body, a body that is not JSON, and a task whose id is already seeded. */
  lemma RejectedCreatesScenario()
    ensures
      var dup := Task("1", "", "", []);
      var reqs := [CreateTask(Empty), CreateTask(Malformed), CreateTask(Parsed(dup))];
      var trace := Run(Seed(), reqs);
      && trace.replies == [
           Reply(StatusBadRequest, NoBody),
           Reply(StatusBadRequest, NoBody),
           Reply(StatusConflict, NoBody)]
      && trace.store == Seed()
  {
    var dup := Task("1", "", "", []);
    var reqs := [CreateTask(Empty), CreateTask(Malformed), CreateTask(Parsed(dup))];
    var s0 := Seed();
    assert "1" in s0;
    assert Run(s0, reqs[..1]) == Trace([Reply(StatusBadRequest, NoBody)], s0) by {
      assert reqs[..1][..0] == [];
    }
    assert Run(s0, reqs[..2]) == Trace([Reply(StatusBadRequest, NoBody), Reply(StatusBadRequest, NoBody)], s0) by {
      assert reqs[..2][..1] == reqs[..1];
    }
    assert reqs[..3] == reqs;
  }
}

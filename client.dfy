/** The client wrapper around a native Tor client session: construction over a
    cache directory, synchronous and queued asynchronous requests, and release.

    The native library behind `create`, `send` and `free` is not modelled; the
    class `Native` stands for it. It records every call in a ghost log, and the
    answer the native code would give is a parameter of the call. */
module ArtiClient {
  import opened Outcomes
  import opened Response

  /** The HTTP methods a request may use (`Client.TorRequestMethod`). */
  datatype TorRequestMethod = GET | HEAD | POST | PUT | DELETE

  /** `method.name()`: the identifier of the enum constant. */
  function Name(m: TorRequestMethod): string
  {
    match m
    case GET => "GET"
    case HEAD => "HEAD"
    case POST => "POST"
    case PUT => "PUT"
    case DELETE => "DELETE"
  }

  /** `TorRequestMethod.valueOf(s)`, with `None` where Java throws. */
  function ValueOf(s: string): Option<TorRequestMethod>
  {
    if s == "GET" then Some(GET)
    else if s == "HEAD" then Some(HEAD)
    else if s == "POST" then Some(POST)
    else if s == "PUT" then Some(PUT)
    else if s == "DELETE" then Some(DELETE)
    else None
  }

  /** The name sent to the native layer identifies the method: `valueOf`
      inverts `name()`, and only the five names are accepted. */
  lemma ValueOfName(m: TorRequestMethod, s: string)
    ensures ValueOf(Name(m)) == Some(m)
    ensures ValueOf(s) == Some(m) <==> s == Name(m)
  {
  }

  /** The two messages the wrapper itself throws. */
  const ClosedMessage: string := "Client has already been closed"
  const InvalidMethodMessage: string := "Invalid method: Null pointer"

  /** The checks `syncTorRequest` makes before calling the native layer, in
      their order: the exception message it throws, or `None` to go ahead.
      A `None` method stands for a Java `null`; a zero handle means closed. */
  function Refusal(client: int64, httpMethod: Option<TorRequestMethod>): (r: Option<string>)
    ensures r.None? <==> client != 0 && httpMethod.Some?
    ensures client == 0 ==> r == Some(ClosedMessage)
    ensures client != 0 && httpMethod.None? ==> r == Some(InvalidMethodMessage)
  {
    if client == 0 then Some(ClosedMessage)
    else if httpMethod.None? then Some(InvalidMethodMessage)
    else None
  }

  /** One call into the native library. */
  datatype NativeCall =
    | CreateCall(cacheDir: string)
    | SendCall(client: int64, methodName: string, url: string, headers: Headers, body: seq<byte>)
    | FreeCall(client: int64)

  /** The native calls one `syncTorRequest` makes: one `send` with the current
      handle and the method's name when the checks pass, none otherwise. */
  function RequestCalls(client: int64, httpMethod: Option<TorRequestMethod>, url: string, headers: Headers, body: seq<byte>): seq<NativeCall>
  {
    if Refusal(client, httpMethod).None? then [SendCall(client, Name(httpMethod.value), url, headers, body)] else []
  }

  /** What one `syncTorRequest` returns or throws, given the native answer. */
  function RequestReply(client: int64, httpMethod: Option<TorRequestMethod>, answer: Result<HttpResponse>): Result<HttpResponse>
  {
    match Refusal(client, httpMethod)
    case Some(msg) => Err(msg)
    case None => answer
  }

  /** A synchronous operation on a client, with the answer the native layer
      gives if it is asked. */
  datatype Op =
    | Request(httpMethod: Option<TorRequestMethod>, url: string, headers: Headers, body: seq<byte>, answer: Result<HttpResponse>)
    | Close

  /** What a sequence of operations does from a given handle value: the final
      handle, the native calls in order, and the reply to each request. */
  datatype Trace = Trace(client: int64, calls: seq<NativeCall>, replies: seq<Result<HttpResponse>>)

  function After(client: int64, op: Op): int64
  {
    if op.Close? then 0 else client
  }

  function Run(client: int64, ops: seq<Op>): Trace
    decreases |ops|
  {
    if ops == [] then Trace(client, [], [])
    else
      var t := Run(After(client, ops[0]), ops[1..]);
      match ops[0]
      case Close => Trace(t.client, [FreeCall(client)] + t.calls, t.replies)
      case Request(m, u, h, b, a) =>
        Trace(t.client, RequestCalls(client, m, u, h, b) + t.calls, [RequestReply(client, m, a)] + t.replies)
  }

  /** Running `a + b` is running `a`, then `b` from the handle `a` left. */
  lemma {:induction false} RunAppend(client: int64, a: seq<Op>, b: seq<Op>)
    ensures Run(client, a + b)
            == Trace(Run(Run(client, a).client, b).client,
                     Run(client, a).calls + Run(Run(client, a).client, b).calls,
                     Run(client, a).replies + Run(Run(client, a).client, b).replies)
    decreases |a|
  {
    if a == [] {
      assert a + b == b;
    } else {
      var next := After(client, a[0]);
      assert (a + b)[0] == a[0];
      assert (a + b)[1..] == a[1..] + b;
      RunAppend(next, a[1..], b);
      var ta, tb := Run(next, a[1..]), Run(Run(next, a[1..]).client, b);
      assert Run(client, a).client == ta.client;
      match a[0]
      case Close =>
        assert [FreeCall(client)] + (ta.calls + tb.calls) == ([FreeCall(client)] + ta.calls) + tb.calls;
      case Request(m, u, h, bd, ans) =>
        var rc, rr := RequestCalls(client, m, u, h, bd), RequestReply(client, m, ans);
        assert rc + (ta.calls + tb.calls) == (rc + ta.calls) + tb.calls;
        assert [rr] + (ta.replies + tb.replies) == ([rr] + ta.replies) + tb.replies;
    }
  }

  function CloseCount(ops: seq<Op>): nat
  {
    if ops == [] then 0 else (if ops[0].Close? then 1 else 0) + CloseCount(ops[1..])
  }

  function RequestCount(ops: seq<Op>): nat
  {
    if ops == [] then 0 else (if ops[0].Request? then 1 else 0) + RequestCount(ops[1..])
  }

  function FreeCount(calls: seq<NativeCall>): nat
  {
    if calls == [] then 0 else (if calls[0].FreeCall? then 1 else 0) + FreeCount(calls[1..])
  }

  /** A closed client stays closed: whatever is done to it, every request
      throws the closed error, it never calls `send`, and the only native
      calls are `free(0)`, one per `close`. */
  lemma {:induction false} ClosedClientRefusesEverything(ops: seq<Op>)
    ensures Run(0, ops).client == 0
    ensures |Run(0, ops).replies| == RequestCount(ops)
    ensures forall i :: 0 <= i < |Run(0, ops).replies| ==> Run(0, ops).replies[i] == Err(ClosedMessage)
    ensures |Run(0, ops).calls| == CloseCount(ops)
    ensures forall i :: 0 <= i < |Run(0, ops).calls| ==> Run(0, ops).calls[i] == FreeCall(0)
    decreases |ops|
  {
    if ops != [] {
      ClosedClientRefusesEverything(ops[1..]);
    }
  }

  /** Once `close` has run, every later request fails with the closed error,
      never with a native error, and `send` is never called again. */
  lemma AfterCloseEveryRequestFails(client: int64, ops: seq<Op>)
    ensures Run(client, [Close] + ops).calls[0] == FreeCall(client)
    ensures forall i :: 0 <= i < |Run(client, [Close] + ops).replies| ==>
              Run(client, [Close] + ops).replies[i] == Err(ClosedMessage)
    ensures forall i :: 1 <= i < |Run(client, [Close] + ops).calls| ==>
              !Run(client, [Close] + ops).calls[i].SendCall?
  {
    assert ([Close] + ops)[1..] == ops;
    ClosedClientRefusesEverything(ops);
  }

  /** On an open client, requests with a method each make exactly one `send`
      with the current handle and the method's name, and get the native answer
      back unchanged: no retry, no wrapping. */
  lemma {:induction false} OpenClientForwardsEveryRequest(client: int64, ops: seq<Op>)
    requires client != 0
    requires forall i :: 0 <= i < |ops| ==> ops[i].Request? && ops[i].httpMethod.Some?
    ensures Run(client, ops).client == client
    ensures |Run(client, ops).replies| == |ops| && |Run(client, ops).calls| == |ops|
    ensures forall i :: 0 <= i < |ops| ==> Run(client, ops).replies[i] == ops[i].answer
    ensures forall i :: 0 <= i < |ops| ==>
              Run(client, ops).calls[i]
              == SendCall(client, Name(ops[i].httpMethod.value), ops[i].url, ops[i].headers, ops[i].body)
    decreases |ops|
  {
    if ops != [] {
      OpenClientForwardsEveryRequest(client, ops[1..]);
    }
  }

  lemma {:induction false} FreeCountAppend(a: seq<NativeCall>, b: seq<NativeCall>)
    ensures FreeCount(a + b) == FreeCount(a) + FreeCount(b)
    decreases |a|
  {
    if a != [] {
      assert (a + b)[1..] == a[1..] + b;
      FreeCountAppend(a[1..], b);
    } else {
      assert a + b == b;
    }
  }

  /** `free` is called once per `close`, with no guard: nothing else frees,
      and a second `close` frees again (with the zeroed handle). */
  lemma {:induction false} FreesMatchCloses(client: int64, ops: seq<Op>)
    ensures FreeCount(Run(client, ops).calls) == CloseCount(ops)
    decreases |ops|
  {
    if ops != [] {
      var rest := Run(After(client, ops[0]), ops[1..]);
      FreesMatchCloses(After(client, ops[0]), ops[1..]);
      match ops[0]
      case Close =>
        FreeCountAppend([FreeCall(client)], rest.calls);
      case Request(m, u, h, b, a) =>
        FreeCountAppend(RequestCalls(client, m, u, h, b), rest.calls);
    }
  }

  /** Closing twice calls `free` with the handle, then with zero. */
  lemma DoubleCloseFreesZero(client: int64)
    ensures Run(client, [Close, Close]).calls == [FreeCall(client), FreeCall(0)]
    ensures Run(client, [Close, Close]).client == 0
  {
    assert [Close, Close][1..] == [Close];
  }

  /** The result handed to the completion callback (`TorRequestResult`). */
  datatype TorRequestResult = Success(result: HttpResponse) | Error(error: string)

  /** A completion callback, seen through the one thing the wrapper depends on:
      whether `onComplete` throws for a given result, and with which message. */
  type Callback = TorRequestResult -> Option<string>

  /** The result `asyncTorRequest` hands to the callback for an outcome. */
  function Wrap(outcome: Result<HttpResponse>): (w: TorRequestResult)
    ensures w.Success? <==> outcome.Ok?
    ensures outcome.Ok? ==> w.result == outcome.value
    ensures outcome.Err? ==> w.error == outcome.message
  {
    match outcome
    case Ok(response) => Success(response)
    case Err(msg) => Error(msg)
  }

  /** The `onComplete` calls of one asynchronous request, in order, and the
      exception that escapes the task, if any. The first call carries the
      request's outcome; if `onComplete(Success)` throws, the catch makes a
      second call with that exception, and whatever the last call throws
      escapes. */
  function Deliveries(outcome: Result<HttpResponse>, callback: Callback): (d: (seq<TorRequestResult>, Option<string>))
    ensures 1 <= |d.0| <= 2
    ensures d.0[0] == Wrap(outcome)
    ensures |d.0| == 2 <==> outcome.Ok? && callback(Wrap(outcome)).Some?
    ensures |d.0| == 2 ==> d.0[1] == Error(callback(d.0[0]).value)
    ensures d.1 == callback(d.0[|d.0| - 1])
  {
    var first := Wrap(outcome);
    var thrown := callback(first);
    if first.Success? && thrown.Some? then
      ([first, Error(thrown.value)], callback(Error(thrown.value)))
    else
      ([first], thrown)
  }

  /** A callback that does not throw is called exactly once, with `Success`
      exactly when the request returned, and no exception escapes. */
  lemma ExactlyOneCompletion(outcome: Result<HttpResponse>, callback: Callback)
    requires forall r :: callback(r).None?
    ensures |Deliveries(outcome, callback).0| == 1
    ensures Deliveries(outcome, callback).0[0].Success? <==> outcome.Ok?
    ensures Deliveries(outcome, callback).1.None?
  {
  }

  /** A failed request is never reported twice: its callback sees one `Error`. */
  lemma FailureDeliveredOnce(outcome: Result<HttpResponse>, callback: Callback)
    requires outcome.Err?
    ensures Deliveries(outcome, callback).0 == [Error(outcome.message)]
  {
  }

  /** The native library: every call is appended to `calls`. What the native
      code answers cannot be seen here, so it is the `answer` parameter. */
  class Native {
    ghost var calls: seq<NativeCall>

    constructor ()
      ensures calls == []
    {
      calls := [];
    }

    method Create(cacheDir: string, answer: Result<int64>) returns (r: Result<int64>)
      modifies this
      ensures calls == old(calls) + [CreateCall(cacheDir)]
      ensures r == answer
    {
      calls := calls + [CreateCall(cacheDir)];
      r := answer;
    }

    method Send(client: int64, methodName: string, url: string, headers: Headers, body: seq<byte>, answer: Result<HttpResponse>)
      returns (r: Result<HttpResponse>)
      modifies this
      ensures calls == old(calls) + [SendCall(client, methodName, url, headers, body)]
      ensures r == answer
    {
      calls := calls + [SendCall(client, methodName, url, headers, body)];
      r := answer;
    }

    method Free(client: int64)
      modifies this
      ensures calls == old(calls) + [FreeCall(client)]
    {
      calls := calls + [FreeCall(client)];
    }
  }

  /** A request handed to the executor: the lambda of `asyncTorRequest`,
      holding the client it runs on and everything it captured. */
  datatype Task = Task(owner: Client, httpMethod: Option<TorRequestMethod>, url: string, headers: Headers,
                       body: seq<byte>, callback: Callback)

  /** The executor of asynchronous requests. The default one is a single
      thread: it runs the tasks one at a time in the order they were given. */
  class Executor {
    var pending: seq<Task>

    constructor ()
      ensures pending == []
    {
      pending := [];
    }

    /** `executor.execute(task)`: queue the task, run nothing yet. */
    method Execute(t: Task)
      modifies this
      ensures pending == old(pending) + [t]
    {
      pending := pending + [t];
    }
  }

  class Client {
    const executor: Executor
    const native: Native
    /** The native handle; 0 once the client has been closed. */
    var client: int64

    /** Stores the executor and the handle `create` returned. */
    constructor (executor: Executor, native: Native, handle: int64)
      ensures this.executor == executor && this.native == native && client == handle
    {
      this.executor := executor;
      this.native := native;
      client := handle;
    }

    /** `new Client(executor, cacheDir)`: asks the native layer for a client
        over `cacheDir` and keeps the handle; if `create` throws, the
        exception propagates and no client exists. */
    static method Construct(executor: Executor, native: Native, cacheDir: string, answer: Result<int64>)
      returns (r: Result<Client>)
      modifies native
      ensures native.calls == old(native.calls) + [CreateCall(cacheDir)]
      ensures answer.Err? ==> r == Err(answer.message)
      ensures answer.Ok? ==> r.Ok? && fresh(r.value) && r.value.client == answer.value
                             && r.value.executor == executor && r.value.native == native
    {
      var created := native.Create(cacheDir, answer);
      match created
      case Err(msg) =>
        r := Err(msg);
      case Ok(handle) =>
        var c := new Client(executor, native, handle);
        r := Ok(c);
    }

    /** `syncTorRequest`: refuse a closed client, then a null method, and
        otherwise make exactly one native `send` and return what it gives. */
    method SyncTorRequest(httpMethod: Option<TorRequestMethod>, url: string, headers: Headers, body: seq<byte>,
                          answer: Result<HttpResponse>)
      returns (r: Result<HttpResponse>)
      modifies native
      ensures native.calls == old(native.calls) + RequestCalls(client, httpMethod, url, headers, body)
      ensures r == RequestReply(client, httpMethod, answer)
    {
      if client == 0 {
        return Err(ClosedMessage);
      }
      if httpMethod.None? {
        return Err(InvalidMethodMessage);
      }
      r := native.Send(client, Name(httpMethod.value), url, headers, body, answer);
    }

    /** `close`: free the handle held on entry, then zero it. There is no
        guard, so closing a closed client calls `free(0)`. */
    method Close()
      modifies this, native
      ensures client == 0
      ensures native.calls == old(native.calls) + [FreeCall(old(client))]
    {
      native.Free(client);
      client := 0;
    }

    /** `asyncTorRequest`: queue the request on the executor and return at
        once; no native call is made until the executor runs the task. */
    method AsyncTorRequest(httpMethod: Option<TorRequestMethod>, url: string, headers: Headers, body: seq<byte>,
                           callback: Callback)
      modifies executor
      ensures executor.pending == old(executor.pending) + [Task(this, httpMethod, url, headers, body, callback)]
    {
      executor.Execute(Task(this, httpMethod, url, headers, body, callback));
    }

    /** The body of the queued lambda: run `syncTorRequest` on the client as it
        is now, and report to the callback. `delivered` lists the arguments of
        the `onComplete` calls; `uncaught` is what escapes the task. */
    method RunTask(t: Task, answer: Result<HttpResponse>)
      returns (delivered: seq<TorRequestResult>, uncaught: Option<string>)
      requires t.owner == this
      modifies native
      ensures native.calls == old(native.calls) + RequestCalls(client, t.httpMethod, t.url, t.headers, t.body)
      ensures (delivered, uncaught) == Deliveries(RequestReply(client, t.httpMethod, answer), t.callback)
    {
      var r := SyncTorRequest(t.httpMethod, t.url, t.headers, t.body, answer);
      match r
      case Ok(response) =>
        var thrown := t.callback(Success(response));
        if thrown.Some? {
          delivered := [Success(response), Error(thrown.value)];
          uncaught := t.callback(Error(thrown.value));
        } else {
          delivered := [Success(response)];
          uncaught := None;
        }
      case Err(msg) =>
        delivered := [Error(msg)];
        uncaught := t.callback(Error(msg));
    }
  }

  /** The executor's thread takes the oldest queued task and runs it against
      its client's state at that moment. */
  method RunNextTask(ex: Executor, answer: Result<HttpResponse>)
    returns (delivered: seq<TorRequestResult>, uncaught: Option<string>)
    requires ex.pending != []
    modifies ex, ex.pending[0].owner.native
    ensures ex.pending == old(ex.pending[1..])
    ensures var t := old(ex.pending[0]);
            t.owner.native.calls
            == old(t.owner.native.calls) + RequestCalls(t.owner.client, t.httpMethod, t.url, t.headers, t.body)
            && (delivered, uncaught) == Deliveries(RequestReply(t.owner.client, t.httpMethod, answer), t.callback)
  {
    var t := ex.pending[0];
    ex.pending := ex.pending[1..];
    delivered, uncaught := t.owner.RunTask(t, answer);
  }

  /** A caller issuing the operations `ops` one after the other on a client:
      the handle, the native calls and the replies are those of `Run`. */
  method ApplyOps(c: Client, ops: seq<Op>) returns (replies: seq<Result<HttpResponse>>)
    modifies c, c.native
    ensures c.client == Run(old(c.client), ops).client
    ensures c.native.calls == old(c.native.calls) + Run(old(c.client), ops).calls
    ensures replies == Run(old(c.client), ops).replies
  {
    replies := [];
    var i := 0;
    while i < |ops|
      invariant 0 <= i <= |ops|
      invariant c.client == Run(old(c.client), ops[..i]).client
      invariant c.native.calls == old(c.native.calls) + Run(old(c.client), ops[..i]).calls
      invariant replies == Run(old(c.client), ops[..i]).replies
    {
      RunAppend(old(c.client), ops[..i], [ops[i]]);
      assert ops[..i + 1] == ops[..i] + [ops[i]];
      assert [ops[i]][1..] == [];
      match ops[i] {
        case Close =>
          c.Close();
        case Request(m, u, h, b, a) =>
          var r := c.SyncTorRequest(m, u, h, b, a);
          replies := replies + [r];
      }
      i := i + 1;
    }
    assert ops[..|ops|] == ops;
  }

  /** A request queued before `close` but run after it is delivered as one
      closed error, and the native layer sees only `create` and `free`. */
  method QueuedRequestAfterClose(cacheDir: string, handle: int64, httpMethod: Option<TorRequestMethod>, url: string,
                                 headers: Headers, body: seq<byte>, callback: Callback, answer: Result<HttpResponse>)
    returns (delivered: seq<TorRequestResult>, ghost log: seq<NativeCall>)
    requires forall r :: callback(r).None?
    ensures delivered == [Error(ClosedMessage)]
    ensures log == [CreateCall(cacheDir), FreeCall(handle)]
  {
    var ex := new Executor();
    var native := new Native();
    var created := Client.Construct(ex, native, cacheDir, Ok(handle));
    var c := created.value;
    c.AsyncTorRequest(httpMethod, url, headers, body, callback);
    c.Close();
    var uncaught;
    delivered, uncaught := RunNextTask(ex, answer);
    log := native.calls;
  }
}

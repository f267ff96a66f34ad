# Tor client wrapper for Android: verified model

This project models, in Dafny, the Java layer of an Android library that wraps
a native (Rust) Tor client. It also models the archive-extraction loop of the
library's example application. It covers three parts.

* **The client handle** (`client.dfy`, module `ArtiClient`). A `Client` object
  holds the `long` handle that the native `create(cacheDir)` returned.
  `syncTorRequest` first refuses a closed client (handle 0), then a null
  method. Otherwise it makes exactly one native `send` and returns that call's
  response or exception unchanged. `close` frees the handle and zeroes it.
  `asyncTorRequest` hands a task to the client's executor. When the task runs,
  it performs the synchronous request and reports `Success`/`Error` to the
  callback.
  * The native library is the class `Native`. Each call to it is appended to a
    ghost log `calls`. The answer the native code would give cannot be seen
    from Java, so it is a parameter (`answer`).
  * The executor is a FIFO queue of tasks (`Executor.pending`). This is the
    behaviour of the default single-thread executor. `RunNextTask` is the
    executor thread running the oldest task against the client's state at
    that moment.
  * The callback is a function. It tells whether `onComplete` throws for a
    given result, and with which message.
  * `Run` is a reference semantics for a sequence of synchronous operations
    (`Request`, `Close`) from a given handle. It gives the final handle, the
    native calls made and the replies. The lemmas about `Run` state the
    lifecycle properties. `SyncTorRequest` is specified with the per-step
    functions `RequestCalls` and `RequestReply`; `Close` states its `free`
    call and the zeroed handle directly. `ApplyOps` issues any sequence of
    operations on a `Client` object and is proved to produce exactly `Run`'s
    handle, native calls and replies, so the lemmas about `Run` hold of the
    class.
* **The response value** (`response.dfy`, module `Response`). `HttpResponse`
  holds a status, a version string, a header multimap and a body. Its fields
  are set once at construction, so it is a datatype with four getters.
* **Archive extraction** (`extraction.dfy`, module `Extraction`). This is the
  body of `downloadFiles` that walks the entries of an already-decompressed
  archive stream.
  * Directory entries are skipped.
  * Each file entry truncates or creates the file of its name. Its data is
    copied through a 1024-byte `array` buffer until `read` returns -1.
  * A read failure propagates, and files already written stay.
  * `ArchiveInputStream` and `Directory` are classes updated in place.
  * The spec function `Extract` gives the resulting files and outcome.
    `ExtractArchive` is proved equal to it for every chunking the stream may
    choose. The lemmas state what `Extract` means.

Java widths are explicit: `byte`, `int32` (status, `nbRead`) and `int64`
(handle) are newtypes in `outcomes.dfy`. `Result<T>` is what a Java method that
may throw does: `Ok(value)` or `Err(message)`. `Option` stands for a nullable
reference.

Three behaviours of the code are easy to mistake for something else:
* `close` has no guard. A second `close` calls native `free(0)` rather than
  doing nothing.
* If `onComplete(Success(..))` throws, the catch block calls `onComplete` a
  second time with `Error`. So the callback is called twice exactly when the
  request succeeded and `onComplete(Success)` threw; a callback that never
  throws is called exactly once (`ExactlyOneCompletion`).
* Only the method is checked in Java; URL, headers and body go to the native
  layer unchecked. `asyncTorRequest` checks nothing before queueing, so a
  closed client or a null method is reported through the callback, not thrown
  at submission.

## Model

| member | source | states |
|---|---|---|
| `Response.GettersReturnConstructorArguments` | artiwrapper/src/main/java/org/c4dt/artiwrapper/HttpResponse.java:15-56 | `getStatus`, `getVersion`, `getHeaders` and `getBody` return exactly the status, version, headers and body given at construction |
| `Response.GettersDetermineResponse` | artiwrapper/src/main/java/org/c4dt/artiwrapper/HttpResponse.java:9-57 | the value is nothing but its four fields: rebuilding from the getters gives it back, and responses that agree on all getters are equal |
| `ArtiClient.ValueOfName` | artiwrapper/src/main/java/org/c4dt/artiwrapper/Client.java:22-28 | the name sent to the native layer identifies the method: `valueOf(name(m)) == m`, and only the five method names parse |
| `ArtiClient.Refusal` | artiwrapper/src/main/java/org/c4dt/artiwrapper/Client.java:107-112 | a request goes ahead iff the handle is non-zero and the method non-null; a closed client is refused with "Client has already been closed" whatever the method (closed check first); an open client with a null method gets "Invalid method: Null pointer" |
| `ArtiClient.ClosedClientRefusesEverything` | artiwrapper/src/main/java/org/c4dt/artiwrapper/Client.java:105-125 | from a zero handle, any sequence of requests and closes keeps the handle zero, every request throws the closed error, no `send` is made, and the only native calls are `free(0)`, one per close |
| `ArtiClient.AfterCloseEveryRequestFails` | artiwrapper/src/main/java/org/c4dt/artiwrapper/Client.java:116-125 | after `close` (which frees the handle held on entry), every later request fails with the closed error and `send` is never called again |
| `ArtiClient.OpenClientForwardsEveryRequest` | artiwrapper/src/main/java/org/c4dt/artiwrapper/Client.java:105-114 | on an open client, each request with a method makes exactly one `send(handle, name(method), url, headers, body)` and returns the native answer unchanged (no retry, no wrapping); the handle is untouched |
| `ArtiClient.FreesMatchCloses` | artiwrapper/src/main/java/org/c4dt/artiwrapper/Client.java:121-125 | over any sequence of operations, the number of native `free` calls equals the number of `close` calls: only `close` frees, and it frees every time |
| `ArtiClient.DoubleCloseFreesZero` | artiwrapper/src/main/java/org/c4dt/artiwrapper/Client.java:121-125 | closing twice calls `free(handle)` and then `free(0)`, leaving the handle zero |
| `ArtiClient.Wrap` | artiwrapper/src/main/java/org/c4dt/artiwrapper/Client.java:86-90 | the callback result is `Success` iff the request returned, carrying its response, and otherwise `Error` carrying the exception |
| `ArtiClient.Deliveries` | artiwrapper/src/main/java/org/c4dt/artiwrapper/Client.java:85-92 | `onComplete` is called once or twice; the first call carries the wrapped outcome; a second call happens iff the request succeeded and `onComplete(Success)` threw, and it carries `Error` with that exception; what the last call throws escapes the task |
| `ArtiClient.ExactlyOneCompletion` | artiwrapper/src/main/java/org/c4dt/artiwrapper/Client.java:85-92 | with a callback that does not throw, `onComplete` is called exactly once, with `Success` iff the request returned, and nothing escapes |
| `ArtiClient.FailureDeliveredOnce` | artiwrapper/src/main/java/org/c4dt/artiwrapper/Client.java:86-91 | a request that threw is reported by a single `onComplete(Error(e))` |
| `ArtiClient.Native.Create` | artiwrapper/src/main/java/org/c4dt/artiwrapper/Client.java:129-130 | native `create` is logged with its cache directory and yields the handle or exception the native code gives |
| `ArtiClient.Native.Send` | artiwrapper/src/main/java/org/c4dt/artiwrapper/Client.java:132-133 | native `send` is logged with all its arguments and yields the native answer |
| `ArtiClient.Native.Free` | artiwrapper/src/main/java/org/c4dt/artiwrapper/Client.java:135 | native `free` is logged with the handle it is given |
| `ArtiClient.Executor.Execute` | artiwrapper/src/main/java/org/c4dt/artiwrapper/Client.java:85 | `executor.execute` queues the task behind the pending ones and runs nothing yet |
| `ArtiClient.Client.constructor` | artiwrapper/src/main/java/org/c4dt/artiwrapper/Client.java:69-70 | the client stores its executor and the handle it is given |
| `ArtiClient.Client.Construct` | artiwrapper/src/main/java/org/c4dt/artiwrapper/Client.java:67-71 | exactly one native `create(cacheDir)`; if it throws, the exception propagates and no client exists; otherwise a new client holds exactly the returned handle and the given executor |
| `ArtiClient.Client.SyncTorRequest` | artiwrapper/src/main/java/org/c4dt/artiwrapper/Client.java:105-114 | the native calls made are `RequestCalls` (one `send` with the current handle and the method's name iff not refused, none otherwise), the result is `RequestReply` (the refusal message or the native answer unchanged), and the handle does not change |
| `ArtiClient.Client.Close` | artiwrapper/src/main/java/org/c4dt/artiwrapper/Client.java:121-125 | exactly one native `free` with the handle held on entry (even when that is already 0), after which the handle is 0 |
| `ArtiClient.Client.AsyncTorRequest` | artiwrapper/src/main/java/org/c4dt/artiwrapper/Client.java:82-93 | the request, its client and callback are appended to the executor's queue; no native call is made at submission |
| `ArtiClient.Client.RunTask` | artiwrapper/src/main/java/org/c4dt/artiwrapper/Client.java:85-92 | the queued lambda makes the native calls of one `syncTorRequest` on the client's current state and makes the `onComplete` calls given by `Deliveries` for its outcome |
| `ArtiClient.RunNextTask` | artiwrapper/src/main/java/org/c4dt/artiwrapper/Client.java:82-93 | the executor removes the oldest task and runs it against its client's handle at that moment, with the native calls and completions of `RunTask` |
| `ArtiClient.QueuedRequestAfterClose` | artiwrapper/src/main/java/org/c4dt/artiwrapper/Client.java:116-118 | for any method, URL, headers, body and non-throwing callback, a request submitted before `close` but run after it is delivered as exactly one `Error("Client has already been closed")`, and the native call log is exactly `create(cacheDir)` then `free(handle)` |
| `ArtiClient.RunAppend` | artiwrapper/src/main/java/org/c4dt/artiwrapper/Client.java:105-125 | operations take effect in call order: running `a + b` is running `a`, then `b` from the handle `a` left, with calls and replies concatenated |
| `ArtiClient.ApplyOps` | artiwrapper/src/main/java/org/c4dt/artiwrapper/Client.java:105-125 | calling `syncTorRequest` and `close` on a client in any order leaves the handle, appends the native calls and returns the replies that `Run` gives from the handle held at the start |
| `Extraction.ExtractOutcome` | artiwrapper/app/src/main/java/org/c4dt/myapplication/MainActivity.java:61-81 | extraction succeeds iff no file entry fails to read; a failure reports the exception of the first failing file entry |
| `Extraction.ExtractAppend` | artiwrapper/app/src/main/java/org/c4dt/myapplication/MainActivity.java:68-80 | entries are processed in archive order: extracting `a + b` is extracting `a`, then, unless that failed, `b` from the resulting directory |
| `Extraction.DirectoryEntrySkipped` | artiwrapper/app/src/main/java/org/c4dt/myapplication/MainActivity.java:70 | a directory entry anywhere in the archive produces nothing: the extraction is the same without it |
| `Extraction.NoRollback` | artiwrapper/app/src/main/java/org/c4dt/myapplication/MainActivity.java:61-81 | when a file entry fails to read after entries that extracted cleanly, the files they wrote stay, the failing entry's file holds the bytes read before the failure, and later entries are not reached |
| `Extraction.UnnamedFilesUnchanged` | artiwrapper/app/src/main/java/org/c4dt/myapplication/MainActivity.java:72-74 | a file no file entry names keeps its content, and is neither created nor removed, whether or not extraction fails |
| `Extraction.ExtractedKeys` | artiwrapper/app/src/main/java/org/c4dt/myapplication/MainActivity.java:72-74 | after a successful extraction the directory holds exactly its former files plus one file per file-entry name |
| `Extraction.LastWriteWins` | artiwrapper/app/src/main/java/org/c4dt/myapplication/MainActivity.java:68-74 | after a successful extraction, the file of an entry not named again later holds that entry's whole content: a later entry with the same name replaces an earlier one |
| `Extraction.Directory.Open` | artiwrapper/app/src/main/java/org/c4dt/myapplication/MainActivity.java:74 | opening the output stream creates the file or truncates it to empty (not append mode); no other file changes |
| `Extraction.Directory.Write` | artiwrapper/app/src/main/java/org/c4dt/myapplication/MainActivity.java:76 | `write(buf, 0, n)` appends exactly the first `n` bytes of the buffer to the file |
| `Extraction.ArchiveInputStream.GetNextEntry` | artiwrapper/app/src/main/java/org/c4dt/myapplication/MainActivity.java:68 | returns the entries in archive order, then null, and starts reading the new entry's data from its beginning |
| `Extraction.ArchiveInputStream.Read` | artiwrapper/app/src/main/java/org/c4dt/myapplication/MainActivity.java:75 | at the end of an entry's data returns -1 (or throws for a damaged archive) and leaves the buffer alone; otherwise copies the next 1 to `buf.length` data bytes to the front of the buffer and returns their count |
| `Extraction.CopyEntry` | artiwrapper/app/src/main/java/org/c4dt/myapplication/MainActivity.java:72-78 | for one file entry, the file of its name ends up holding exactly the entry's whole data whatever the chunk sizes; no other file changes; the loop ends with -1 or with the read exception iff the entry is damaged |
| `Extraction.ExtractArchive` | artiwrapper/app/src/main/java/org/c4dt/myapplication/MainActivity.java:61-81 | the entry loop leaves the directory as `Extract` of its old contents and the archive's entries, with the same outcome, for every chunking the stream chooses |

## Left out

- The native engine behind `create`, `send` and `free` (Client.java:129-135) is not modelled. Its answers are parameters, and its calls are recorded in a log.
- The static `System.loadLibrary` blocks and all `Log` calls are not modelled. They are process-wide library loading and logging.
- `Client(String cacheDir)` is not a separate member. It is `Client(Executor, String)` with a new single-thread executor, which callers obtain as `new Executor()`.
- Executor threading is not modelled. The executor is one FIFO queue drained one task at a time, which matches the default single-thread executor. Caller-supplied multi-threaded executors can run tasks concurrently, or interleave them with `close`; that is not captured.
- A `Callback` is modelled only by whether `onComplete` throws. The Java catch block catches only `Exception`, and a thrown `Error` would escape after the first call. Both are treated alike here.
- Null URL, headers or body are not modelled. Java passes them unchecked to the native layer, so they are plain values here.
- `HttpResponse.GetBody` and `HttpResponse.GetHeaders` return values. In Java, `getBody` hands out the internal `byte[]` and `getHeaders` the internal `Map<String, List<String>>`. A caller could mutate either and so change the response; this aliasing is not captured.
- In `downloadFiles`, the HTTPS connection (lines 57-58), gzip/tar decoding (63-64), the `Future` wrapper and the executor are not modelled. The archive is the sequence of entries the decoding would produce.
- Extraction treats entry names as flat keys of the directory map, and does not normalise them. In Java, a name with a sub-path whose parent directory does not exist makes `FileOutputStream` throw. `new File(destDir, "./a")` is the same file as `"a"`, and `"../x"` writes outside the directory. In the model these are distinct keys of the directory, so `UnnamedFilesUnchanged` and `LastWriteWins` hold there where Java would overwrite another file or escape the directory.
- Extraction does not model failures of `getNextEntry`, `FileOutputStream` opening or `write`. Only data-read failures are modelled.
- `Extraction.CopyEntry` is the inner loop of `downloadFiles` (lines 72-78) written as a separate method. In Java it is inline; it was split out so that each proof stays small.
- The example application's `onCreate` (UI, main-thread handler, example request) is not part of this model.
- The test harnesses are not part of this model. Their `copyFiles` loop is the same chunked copy as `CopyEntry`.
- The demo JNI functions and the callback channel in `rust/src/ffi_android.rs` are foreign-call plumbing and threads, and are not modelled.

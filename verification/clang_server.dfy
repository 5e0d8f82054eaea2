/** The request correlator and admission policy of the libclang server client
    (pkg/nuclide-clang/lib/ClangServer.js), as a state record and event
    functions. The asynchronous steps of one `makeRequest` call (admission,
    flags lookup, connection, write, response, `finally`) are separate events;
    the caller chooses their interleaving. */
module ClangServer {
  import opened Wrappers
  import opened Seqs

  /** The methods the Python server understands. */
  datatype Method = Compile | GetCompletions | GetDeclaration | GetDeclarationInfo | GetOutline

  /** The libclang connection: none yet (or dropped after a stream error), a
      live child process, or one whose process was killed by a cleanup (the
      field keeps the disposed connection object). */
  datatype Conn = NoConn | Live | Killed

  /** The cached flags promise: not yet created, or settled with its value. */
  datatype FlagsCache = NotRequested | Cached(flags: Option<seq<string>>)

  /** What the flags manager's `getFlagsForSrc` yields: no entry, an entry with
      (possibly null) flags and a change stream, or a rejection. */
  datatype FlagsReply = NoEntry | Entry(flags: Option<seq<string>>) | ManagerError

  /** One line written to the server's stdin: `{id, args: {kind, flags}}`. The
      id travels as its decimal string. */
  datatype Frame = Frame(id: int, kind: Method, flags: seq<string>)

  /** A response listener registered with `emitter.once(reqid, …)`. */
  datatype Listener = Listener(kind: Method, accurateFlags: bool)

  /** A result object from the server; `accurateFlags` is stamped on compile results. */
  datatype Payload = Payload(body: string, accurateFlags: Option<bool>)

  /** A parsed response line; `error` is the server's error message, if any. */
  datatype Response = Response(error: Option<string>, result: Option<Payload>)

  /** How the promise of a request settles, or `Threw` when the listener itself
      throws a TypeError (and the promise never settles). */
  datatype Settlement = Resolved(result: Option<Payload>) | Rejected(reason: string) | Threw

  datatype Server = Server(
    nextId: nat,
    lastProcessed: int,
    pendingCompile: int,
    listeners: map<int, Listener>,
    conn: Conn,
    disposed: bool,
    flags: FlagsCache,
    managerCalls: nat,
    subscribed: bool,
    flagsChanged: bool,
    written: seq<Frame>,
    /** The `makeRequest` calls admitted and not yet through their `finally`. */
    active: map<nat, Method>,
    nextCall: nat
  )

  const KilledMessage := "Server was killed."

  /** The constructor's state. */
  function Init(): (s: Server)
    ensures s.nextId == 0 && s.lastProcessed == -1 && s.pendingCompile == 0
    ensures !s.disposed && !s.flagsChanged && s.flags == NotRequested
    ensures Inv(s)
  {
    Server(0, -1, 0, map[], NoConn, false, NotRequested, 0, false, false, [], map[], 0)
  }

  /** The compile calls in flight. */
  function CompileCalls(active: map<nat, Method>): set<nat> {
    set t | t in active && active[t] == Compile
  }

  /** The invariant every reachable state keeps: ids are handed out in order
      (the n-th frame written carries id n), listeners wait only for issued ids,
      `lastProcessed` lies in [-1, nextId) and the compile counter equals the
      number of compile calls in flight. */
  ghost predicate Inv(s: Server) {
    && |s.written| == s.nextId
    && (forall i :: 0 <= i < |s.written| ==> s.written[i].id == i)
    && (forall id :: id in s.listeners ==> 0 <= id < s.nextId)
    && -1 <= s.lastProcessed < s.nextId
    && s.pendingCompile == |CompileCalls(s.active)|
    && (forall t :: t in s.active ==> t < s.nextCall)
  }

  // ---------------------------------------------------------------- admission

  datatype Admission =
    | Refused      // the invariant check on a disposed server throws
    | FastNull     // a non-blocking request while compiling resolves to null at once
    | Admitted(call: nat)

  /** The synchronous head of `makeRequest`: a compile bumps the counter; any
      other request that is not blocking fails fast while a compile is pending. */
  function Admit(s: Server, kind: Method, blocking: bool): (r: (Server, Admission))
    ensures s.disposed <==> r.1 == Refused
    ensures r.1 == FastNull <==> !s.disposed && kind != Compile && !blocking && s.pendingCompile != 0
    ensures !r.1.Admitted? ==> r.0 == s
    ensures r.1.Admitted? ==> r.1.call == s.nextCall && r.0.active == s.active[r.1.call := kind]
    ensures r.1.Admitted? ==>
      r.0.pendingCompile == s.pendingCompile + (if kind == Compile then 1 else 0)
    ensures r.0.nextId == s.nextId && r.0.written == s.written && r.0.listeners == s.listeners
  {
    if s.disposed then (s, Refused)
    else if kind != Compile && !blocking && s.pendingCompile != 0 then (s, FastNull)
    else
      var call := s.nextCall;
      var s' := s.(active := s.active[call := kind], nextCall := call + 1,
                   pendingCompile := if kind == Compile then s.pendingCompile + 1 else s.pendingCompile);
      (s', Admitted(call))
  }

  /** The `finally` of `makeRequest`: a compile call gives its count back. */
  function Finish(s: Server, call: nat): (s': Server)
    requires call in s.active
    ensures call !in s'.active && s'.active == s.active - {call}
    ensures s'.pendingCompile == s.pendingCompile - (if s.active[call] == Compile then 1 else 0)
    ensures s'.nextId == s.nextId && s'.written == s.written && s'.listeners == s.listeners
  {
    var m := s.active[call];
    s.(active := s.active - {call},
       pendingCompile := if m == Compile then s.pendingCompile - 1 else s.pendingCompile)
  }

  lemma CompileCallsAdd(active: map<nat, Method>, t: nat, m: Method)
    requires t !in active
    ensures |CompileCalls(active[t := m])| == |CompileCalls(active)| + (if m == Compile then 1 else 0)
  {
    if m == Compile {
      assert CompileCalls(active[t := m]) == CompileCalls(active) + {t};
    } else {
      assert CompileCalls(active[t := m]) == CompileCalls(active);
    }
  }

  lemma CompileCallsRemove(active: map<nat, Method>, t: nat)
    requires t in active
    ensures |CompileCalls(active - {t})| == |CompileCalls(active)| - (if active[t] == Compile then 1 else 0)
  {
    if active[t] == Compile {
      assert CompileCalls(active) == CompileCalls(active - {t}) + {t};
    } else {
      assert CompileCalls(active - {t}) == CompileCalls(active);
    }
  }

  /** Admission and `finally` keep the compile counter equal to the number of
      compile calls in flight, so it never goes negative. */
  lemma {:induction false} AdmitFinishKeepInv(s: Server, kind: Method, blocking: bool, call: nat)
    requires Inv(s)
    ensures Inv(Admit(s, kind, blocking).0)
    ensures call in s.active ==> Inv(Finish(s, call))
    ensures Inv(s) ==> s.pendingCompile >= 0
  {
    var r := Admit(s, kind, blocking);
    if r.1.Admitted? {
      CompileCallsAdd(s.active, r.1.call, kind);
    }
    if call in s.active {
      CompileCallsRemove(s.active, call);
    }
  }

  /** A compile call that runs to its `finally` leaves the counter where it found it. */
  lemma CompileRoundTrip(s: Server)
    requires !s.disposed
    ensures Admit(s, Compile, false).1.Admitted?
    ensures Finish(Admit(s, Compile, false).0, Admit(s, Compile, false).1.call).pendingCompile
            == s.pendingCompile
  {
  }

  // -------------------------------------------------------------------- flags

  /** `getFlags`: the first call asks the flags manager and caches the promise;
      later calls return the cached value without asking again. A manager
      rejection is logged and settles the cache with no flags. */
  function GetFlags(s: Server, reply: FlagsReply): (r: (Server, Option<seq<string>>))
    ensures s.flags.Cached? ==> r.0 == s && r.1 == s.flags.flags
    ensures s.flags.NotRequested? ==> r.0.managerCalls == s.managerCalls + 1 && r.0.flags == Cached(r.1)
    ensures r.0.managerCalls <= 1 + s.managerCalls
    ensures r.0.flags.Cached?
    ensures s.flags.NotRequested? ==> (r.1 == if reply.Entry? then reply.flags else None)
    ensures s.flags.NotRequested? ==> (r.0.subscribed <==> reply.Entry? || s.subscribed)
    ensures r.0.flagsChanged == s.flagsChanged && r.0.nextId == s.nextId && r.0.written == s.written
    ensures r.0.listeners == s.listeners && r.0.active == s.active && r.0.pendingCompile == s.pendingCompile
    ensures r.0.lastProcessed == s.lastProcessed && r.0.nextCall == s.nextCall
  {
    match s.flags
    case Cached(f) => (s, f)
    case NotRequested =>
      var f := if reply.Entry? then reply.flags else None;
      (s.(flags := Cached(f), managerCalls := s.managerCalls + 1,
          subscribed := s.subscribed || reply.Entry?), f)
  }

  /** Asking for flags twice, with any replies, consults the manager once. */
  lemma FlagsAskedOnce(s: Server, first: FlagsReply, second: FlagsReply)
    requires s.flags.NotRequested?
    ensures GetFlags(GetFlags(s, first).0, second).0.managerCalls == s.managerCalls + 1
    ensures GetFlags(GetFlags(s, first).0, second).1 == GetFlags(s, first).1
  {
  }

  /** A value on the flags' change stream sets `flagsChanged` while subscribed. */
  function FlagsChangeNotified(s: Server): (s': Server)
    ensures s'.flagsChanged <==> s.flagsChanged || s.subscribed
    ensures s' == s.(flagsChanged := s'.flagsChanged)
  {
    if s.subscribed then s.(flagsChanged := true) else s
  }

  /** The change stream errored: it is unsubscribed automatically. */
  function FlagsStreamEnded(s: Server): (s': Server)
    ensures !s'.subscribed && s' == s.(subscribed := false)
  {
    s.(subscribed := false)
  }

  /** The flags a request is sent with and whether they are accurate: the
      server's own flags when known; otherwise the caller's defaults, augmented
      by the optional site-specific default flags, marked inaccurate; nothing
      (the request resolves to null) when neither exists. */
  function ResolveFlags(flags: Option<seq<string>>, defaultFlags: Option<seq<string>>,
                        custom: Option<seq<string>>): (r: Option<(seq<string>, bool)>)
    ensures flags.Some? ==> r == Some((flags.value, true))
    ensures flags.None? && defaultFlags.None? ==> r.None?
    ensures flags.None? && defaultFlags.Some? ==>
      r.Some? && !r.value.1 && StartsWithSeq(r.value.0, defaultFlags.value)
    ensures flags.None? && defaultFlags.Some? && custom.None? ==> r == Some((defaultFlags.value, false))
    ensures r.Some? && r.value.1 ==> flags.Some?
  {
    match flags
    case Some(f) => Some((f, true))
    case None =>
      match defaultFlags
      case None => None
      case Some(d) =>
        var full := d + custom.GetOr([]);
        assert full[..|d|] == d;
        assert custom.None? ==> full == d;
        Some((full, false))
  }

  // --------------------------------------------------------------- connection

  /** `_getAsyncConnection`: the existing connection object if there is one (a
      killed one included), else a new one when spawning succeeds, else none. */
  function Connect(s: Server, spawnSucceeds: bool): (r: (Server, bool))
    ensures r.1 <==> s.conn != NoConn || spawnSucceeds
    ensures s.conn != NoConn ==> r.0 == s
    ensures s.conn == NoConn ==> r.0 == s.(conn := if spawnSucceeds then Live else NoConn)
  {
    if s.conn != NoConn then (s, true)
    else if spawnSucceeds then (s.(conn := Live), true)
    else (s, false)
  }

  /** Allocates the next id (post-increment), writes the request line and
      registers a one-shot listener for the id. */
  function Issue(s: Server, kind: Method, flags: seq<string>, accurate: bool): (r: (Server, int))
    requires s.conn != NoConn
    ensures r.1 == s.nextId && r.0.nextId == s.nextId + 1
    ensures r.0.written == s.written + [Frame(r.1, kind, flags)]
    ensures r.1 !in s.listeners ==> r.0.listeners.Keys == s.listeners.Keys + {r.1}
    ensures r.0.listeners == s.listeners[r.1 := Listener(kind, accurate)]
    ensures r.0.lastProcessed == s.lastProcessed && r.0.pendingCompile == s.pendingCompile
    ensures r.0.active == s.active && r.0.nextCall == s.nextCall && r.0.disposed == s.disposed
  {
    var id := s.nextId;
    (s.(nextId := id + 1, written := s.written + [Frame(id, kind, flags)],
        listeners := s.listeners[id := Listener(kind, accurate)]), id)
  }

  /** The outcome of the asynchronous body of an admitted request up to the
      write: resolved to null early, or sent under an id. */
  datatype SendOutcome = ResolvedNull | Sent(id: int)

  /** The environment's answers for one request: the flags manager's reply (used
      only on the first lookup), the site-specific default flags, and whether a
      connection can be spawned. */
  datatype Env = Env(reply: FlagsReply, custom: Option<seq<string>>, spawnSucceeds: bool)

  /** `_makeRequestImpl` up to the point where it waits for the response. */
  function SendRequest(s: Server, kind: Method, defaultFlags: Option<seq<string>>, env: Env)
    : (r: (Server, SendOutcome))
    ensures r.1.Sent? ==> r.1.id == s.nextId && r.0.nextId == s.nextId + 1
    ensures r.1.ResolvedNull? ==> r.0.nextId == s.nextId && r.0.written == s.written
    ensures r.1.Sent? ==> |r.0.written| == |s.written| + 1 && r.0.written[..|s.written|] == s.written
    ensures r.1.Sent? ==> r.0.written[|s.written|].kind == kind && r.1.id in r.0.listeners
    ensures r.0.active == s.active && r.0.pendingCompile == s.pendingCompile
    ensures Inv(s) ==> Inv(r.0)
  {
    var (s1, flags) := GetFlags(s, env.reply);
    match ResolveFlags(flags, defaultFlags, env.custom)
    case None => (s1, ResolvedNull)
    case Some((fl, accurate)) =>
      var (s2, ok) := Connect(s1, env.spawnSucceeds);
      if !ok then (s2, ResolvedNull)
      else
        var (s3, id) := Issue(s2, kind, fl, accurate);
        assert s3.written[..|s.written|] == s.written;
        (s3, Sent(id))
  }

  /** Ids of successive requests strictly increase: two sends in a row use
      consecutive ids and the later frame follows the earlier one. */
  lemma {:induction false} IdsIncrease(s: Server, m1: Method, m2: Method, d1: Option<seq<string>>,
                                       d2: Option<seq<string>>, e1: Env, e2: Env)
    requires Inv(s)
    requires SendRequest(s, m1, d1, e1).1.Sent?
    requires SendRequest(SendRequest(s, m1, d1, e1).0, m2, d2, e2).1.Sent?
    ensures SendRequest(s, m1, d1, e1).1.id < SendRequest(SendRequest(s, m1, d1, e1).0, m2, d2, e2).1.id
    ensures SendRequest(SendRequest(s, m1, d1, e1).0, m2, d2, e2).1.id !in s.listeners
  {
    var r1 := SendRequest(s, m1, d1, e1);
    var r2 := SendRequest(r1.0, m2, d2, e2);
    assert r1.1.id == s.nextId;
    assert r2.1.id == r1.0.nextId == s.nextId + 1;
  }

  // ---------------------------------------------------------------- responses

  predicate Truthy(e: Option<string>) {
    e.Some? && |e.value| > 0
  }

  /** The listener as written: an error rejects unless the server is disposed;
      otherwise the promise resolves with `result`, on which a compile listener
      first stamps `accurateFlags` (throwing when there is no result object). */
  function SettleAsWritten(l: Listener, resp: Response, disposed: bool): (st: Settlement)
    ensures st.Rejected? <==> Truthy(resp.error) && !disposed
    ensures st.Threw? <==> !(Truthy(resp.error) && !disposed) && l.kind == Compile && resp.result.None?
  {
    if Truthy(resp.error) && !disposed then Rejected(resp.error.value)
    else if l.kind == Compile then
      match resp.result
      case None => Threw
      case Some(p) => Resolved(Some(p.(accurateFlags := Some(l.accurateFlags))))
    else Resolved(resp.result)
  }

  /** The listener with the stamp made only on an existing result object: the
      promise always settles, and a compile result carries the flags' accuracy. */
  function Settle(l: Listener, resp: Response, disposed: bool): (st: Settlement)
    ensures !st.Threw?
    ensures st.Rejected? <==> Truthy(resp.error) && !disposed
    ensures st.Rejected? ==> st.reason == resp.error.value
    ensures st.Resolved? ==> (st.result.None? <==> resp.result.None?)
    ensures st.Resolved? && st.result.Some? && l.kind == Compile ==>
      st.result.value == resp.result.value.(accurateFlags := Some(l.accurateFlags))
    ensures st.Resolved? && l.kind != Compile ==> st.result == resp.result
    ensures SettleAsWritten(l, resp, disposed) != Threw ==> st == SettleAsWritten(l, resp, disposed)
  {
    if Truthy(resp.error) && !disposed then Rejected(resp.error.value)
    else if l.kind == Compile then
      match resp.result
      case None => Resolved(None)
      case Some(p) => Resolved(Some(p.(accurateFlags := Some(l.accurateFlags))))
    else Resolved(resp.result)
  }

  /** A response line for `id`, as written: with a listener waiting, `once`
      removes it, it records `id` as the last processed one and settles that
      request, or throws; with none, nothing happens. A compile response
      without a result throws before the promise settles, so that call never
      reaches its `finally`. */
  function RespondAsWritten(s: Server, id: int, resp: Response): (r: (Server, Option<Settlement>))
    ensures id !in s.listeners ==> r.0 == s && r.1.None?
    ensures id in s.listeners ==>
      && r.0.lastProcessed == id
      && r.0.listeners == s.listeners - {id}
      && r.1 == Some(SettleAsWritten(s.listeners[id], resp, s.disposed))
    ensures r.1 == Some(Threw) <==>
      id in s.listeners && s.listeners[id].kind == Compile && resp.result.None?
      && !(Truthy(resp.error) && !s.disposed)
    ensures r.0.nextId == s.nextId && r.0.written == s.written && r.0.conn == s.conn
    ensures r.0.pendingCompile == s.pendingCompile && r.0.active == s.active
  {
    if id !in s.listeners then (s, None)
    else
      (s.(lastProcessed := id, listeners := s.listeners - {id}),
       Some(SettleAsWritten(s.listeners[id], resp, s.disposed)))
  }

  /** A response line for `id` with the corrected listener: the same state
      change, and the request always settles. */
  function Respond(s: Server, id: int, resp: Response): (r: (Server, Option<Settlement>))
    ensures id !in s.listeners ==> r.0 == s && r.1.None?
    ensures id in s.listeners ==>
      && r.0.lastProcessed == id
      && r.0.listeners == s.listeners - {id}
      && r.1 == Some(Settle(s.listeners[id], resp, s.disposed))
    ensures r.1 != Some(Threw)
    ensures RespondAsWritten(s, id, resp).1 != Some(Threw) ==> r == RespondAsWritten(s, id, resp)
    ensures r.0.nextId == s.nextId && r.0.written == s.written && r.0.conn == s.conn
    ensures Inv(s) ==> Inv(r.0)
  {
    if id !in s.listeners then (s, None)
    else
      (s.(lastProcessed := id, listeners := s.listeners - {id}),
       Some(Settle(s.listeners[id], resp, s.disposed)))
  }

  /** As written, a compile response that carries no result (`{id}`) throws
      in its listener: the compile call stays pending, so every later request
      that is not blocking gets the early null. */
  lemma CompileWithoutResultStalls(s: Server, id: int)
    requires id in s.listeners && s.listeners[id].kind == Compile
    requires !s.disposed && s.pendingCompile > 0
    ensures RespondAsWritten(s, id, Response(None, None)).1 == Some(Threw)
    ensures Admit(RespondAsWritten(s, id, Response(None, None)).0, GetCompletions, false).1 == FastNull
    ensures Respond(s, id, Response(None, None)).1 == Some(Resolved(None))
  {
  }

  // ------------------------------------------------------------------ cleanup

  /** The ids from `lo` up to but excluding `hi`. */
  function Range(lo: int, hi: int): (r: seq<int>)
    ensures |r| == if lo < hi then hi - lo else 0
    ensures forall i :: 0 <= i < |r| ==> r[i] == lo + i
    decreases hi - lo
  {
    if lo >= hi then [] else [lo] + Range(lo + 1, hi)
  }

  /** What a killed request's listener receives. */
  function KilledResponse(): Response {
    Response(Some(KilledMessage), None)
  }

  /** The emitting loop of `_cleanup` from `reqid` on, as written: each waiting
      listener settles; a throwing listener ends the loop (and `_cleanup`). */
  function EmitKilledAsWritten(s: Server, reqid: int): (r: (Server, seq<(int, Settlement)>, bool))
    decreases s.nextId - reqid
    ensures r.0.nextId == s.nextId && r.0.disposed == s.disposed && r.0.conn == s.conn
    ensures r.0.subscribed == s.subscribed
    ensures r.0.listeners.Keys <= s.listeners.Keys
  {
    if reqid >= s.nextId then (s, [], false)
    else if reqid !in s.listeners then EmitKilledAsWritten(s, reqid + 1)
    else
      var st := SettleAsWritten(s.listeners[reqid], KilledResponse(), s.disposed);
      var s1 := s.(lastProcessed := reqid, listeners := s.listeners - {reqid});
      if st.Threw? then (s1, [(reqid, st)], true)
      else
        var (s2, out, threw) := EmitKilledAsWritten(s1, reqid + 1);
        (s2, [(reqid, st)] + out, threw)
  }

  /** A compile request with an id from `reqid` on is still waiting. */
  predicate WaitingCompile(s: Server, reqid: int) {
    exists id :: reqid <= id < s.nextId && id in s.listeners && s.listeners[id].kind == Compile
  }

  /** The as-written emitting loop throws exactly when it meets a compile
      listener on a disposed server: a killed response always carries an
      error and never a result. */
  lemma {:induction false} EmitKilledAsWrittenThrows(s: Server, reqid: int)
    decreases s.nextId - reqid
    ensures EmitKilledAsWritten(s, reqid).2 <==> s.disposed && WaitingCompile(s, reqid)
  {
    if reqid >= s.nextId {
    } else if reqid !in s.listeners {
      EmitKilledAsWrittenThrows(s, reqid + 1);
      assert WaitingCompile(s, reqid) <==> WaitingCompile(s, reqid + 1);
    } else {
      var s1 := s.(lastProcessed := reqid, listeners := s.listeners - {reqid});
      EmitKilledAsWrittenThrows(s1, reqid + 1);
      assert WaitingCompile(s1, reqid + 1) <==> WaitingCompile(s, reqid + 1) by {
        if WaitingCompile(s, reqid + 1) {
          var id :| reqid + 1 <= id < s.nextId && id in s.listeners && s.listeners[id].kind == Compile;
          assert id in s1.listeners && s1.listeners[id] == s.listeners[id];
        }
      }
      if s.listeners[reqid].kind != Compile {
        assert WaitingCompile(s, reqid) <==> WaitingCompile(s, reqid + 1);
      }
    }
  }

  /** `_cleanup` as written: fail pending ids, then kill the connection, drop all
      listeners and unsubscribe from flag changes, unless a listener threw. */
  function CleanupAsWritten(s: Server): (r: (Server, seq<(int, Settlement)>, bool))
    ensures !r.2 ==> r.0.listeners == map[] && !r.0.subscribed
    // a listener throws exactly when the server is disposed and a compile request is waiting
    ensures r.2 <==> s.disposed && WaitingCompile(s, s.lastProcessed + 1)
    // then the connection and the change subscription are left as they were
    ensures r.2 ==> r.0.conn == s.conn && r.0.subscribed == s.subscribed
  {
    EmitKilledAsWrittenThrows(s, s.lastProcessed + 1);
    var (s1, out, threw) := EmitKilledAsWritten(s, s.lastProcessed + 1);
    if threw then (s1, out, true)
    else (s1.(conn := if s1.conn == NoConn then NoConn else Killed, listeners := map[],
              subscribed := false), out, false)
  }

  /** `dispose()` as written. */
  function DisposeAsWritten(s: Server): (r: (Server, seq<(int, Settlement)>, bool))
    ensures r.0.disposed
    // disposal stops early, leaving the connection open, exactly when a compile request is waiting
    ensures r.2 <==> WaitingCompile(s, s.lastProcessed + 1)
    ensures r.2 ==> r.0.conn == s.conn && r.0.subscribed == s.subscribed
    ensures !r.2 ==> r.0.listeners == map[] && !r.0.subscribed
  {
    CleanupAsWritten(s.(disposed := true))
  }

  /** The settlement a killed request gets: rejection while the server lives,
      an empty resolution once it is disposed. */
  function KilledSettlement(disposed: bool): (st: Settlement)
    ensures !disposed <==> st == Rejected(KilledMessage)
    ensures disposed <==> st == Resolved(None)
  {
    if disposed then Resolved(None) else Rejected(KilledMessage)
  }

  /** The ids of the settled requests, in order. */
  function IdsOf(out: seq<(int, Settlement)>): seq<int> {
    Firsts(out)
  }

  /** The emitting loop of `_cleanup` with the corrected listener: the ids in
      [reqid, nextId) are emitted in turn and each waiting listener settles as a
      killed request; nothing but the listeners and `lastProcessed` changes. */
  function EmitKilled(s: Server, reqid: int): (r: (Server, seq<(int, Settlement)>))
    decreases s.nextId - reqid
    ensures forall i :: 0 <= i < |r.1| ==> r.1[i].1 == KilledSettlement(s.disposed)
    ensures r.0 == s.(lastProcessed := r.0.lastProcessed, listeners := r.0.listeners)
    ensures r.0.lastProcessed == s.lastProcessed || (reqid <= r.0.lastProcessed < s.nextId)
  {
    if reqid >= s.nextId then (s, [])
    else if reqid !in s.listeners then EmitKilled(s, reqid + 1)
    else
      var st := Settle(s.listeners[reqid], KilledResponse(), s.disposed);
      var s1 := s.(lastProcessed := reqid, listeners := s.listeners - {reqid});
      var (s2, out) := EmitKilled(s1, reqid + 1);
      (s2, [(reqid, st)] + out)
  }

  /** Whether a listener waits for an id. */
  function IsWaiting(listeners: map<int, Listener>): int -> bool {
    id => id in listeners
  }

  /** The loop settles exactly the waiting ids of [reqid, nextId), in increasing order. */
  lemma {:induction false} EmitKilledSettlesWaitingIds(s: Server, reqid: int)
    ensures IdsOf(EmitKilled(s, reqid).1) == Filter(Range(reqid, s.nextId), IsWaiting(s.listeners))
    decreases s.nextId - reqid
  {
    if reqid < s.nextId {
      if reqid !in s.listeners {
        EmitKilledSettlesWaitingIds(s, reqid + 1);
        SkipStep(s, reqid);
      } else {
        var s1 := s.(lastProcessed := reqid, listeners := s.listeners - {reqid});
        EmitKilledSettlesWaitingIds(s1, reqid + 1);
        SettleStep(s, reqid);
      }
    }
  }

  lemma SkipStep(s: Server, reqid: int)
    requires reqid < s.nextId && reqid !in s.listeners
    requires IdsOf(EmitKilled(s, reqid + 1).1) == Filter(Range(reqid + 1, s.nextId), IsWaiting(s.listeners))
    ensures IdsOf(EmitKilled(s, reqid).1) == Filter(Range(reqid, s.nextId), IsWaiting(s.listeners))
  {
    var rest := Range(reqid + 1, s.nextId);
    var waiting := IsWaiting(s.listeners);
    assert Range(reqid, s.nextId) == [reqid] + rest;
    FilterCons(reqid, rest, waiting);
    assert EmitKilled(s, reqid).1 == EmitKilled(s, reqid + 1).1;
    assert [] + Filter(rest, waiting) == Filter(rest, waiting);
  }

  lemma SettleStep(s: Server, reqid: int)
    requires reqid < s.nextId && reqid in s.listeners
    requires var s1 := s.(lastProcessed := reqid, listeners := s.listeners - {reqid});
             IdsOf(EmitKilled(s1, reqid + 1).1) == Filter(Range(reqid + 1, s.nextId), IsWaiting(s1.listeners))
    ensures IdsOf(EmitKilled(s, reqid).1) == Filter(Range(reqid, s.nextId), IsWaiting(s.listeners))
  {
    var rest := Range(reqid + 1, s.nextId);
    var waiting := IsWaiting(s.listeners);
    assert Range(reqid, s.nextId) == [reqid] + rest;
    FilterCons(reqid, rest, waiting);
    var s1 := s.(lastProcessed := reqid, listeners := s.listeners - {reqid});
    FilterOnRest(rest, s.listeners, s1.listeners, reqid);
    EmitOneKilled(s, reqid);
  }

  /** A waiting id is settled first, then the loop goes on without it. */
  lemma EmitOneKilled(s: Server, reqid: int)
    requires reqid < s.nextId && reqid in s.listeners
    ensures var s1 := s.(lastProcessed := reqid, listeners := s.listeners - {reqid});
            IdsOf(EmitKilled(s, reqid).1) == [reqid] + IdsOf(EmitKilled(s1, reqid + 1).1)
  {
    var s1 := s.(lastProcessed := reqid, listeners := s.listeners - {reqid});
    var out := EmitKilled(s1, reqid + 1).1;
    assert EmitKilled(s, reqid).1 == [(reqid, KilledSettlement(s.disposed))] + out;
    assert ([(reqid, KilledSettlement(s.disposed))] + out)[1..] == out;
  }

  lemma FilterOnRest(rest: seq<int>, before: map<int, Listener>, after: map<int, Listener>, gone: int)
    requires after == before - {gone}
    requires gone !in rest
    ensures Filter(rest, IsWaiting(after)) == Filter(rest, IsWaiting(before))
  {
    if |rest| > 0 {
      FilterOnRest(rest[1..], before, after, gone);
    }
  }

  /** `_cleanup` with the corrected listener: every id in (lastProcessed,
      nextId) is failed, each waiting listener settles exactly once, in id order,
      and afterwards no listener is left, the connection is killed and the
      flags subscription is gone. */
  function Cleanup(s: Server): (r: (Server, seq<(int, Settlement)>))
    ensures IdsOf(r.1) == Filter(Range(s.lastProcessed + 1, s.nextId), IsWaiting(s.listeners))
    ensures forall i :: 0 <= i < |r.1| ==> r.1[i].1 == KilledSettlement(s.disposed)
    ensures r.0.listeners == map[] && !r.0.subscribed
    ensures r.0.conn == (if s.conn == NoConn then NoConn else Killed)
    ensures r.0.nextId == s.nextId && r.0.written == s.written && r.0.disposed == s.disposed
    ensures r.0.flagsChanged == s.flagsChanged && r.0.flags == s.flags
    ensures Inv(s) ==> Inv(r.0)
  {
    EmitKilledSettlesWaitingIds(s, s.lastProcessed + 1);
    var (s1, out) := EmitKilled(s, s.lastProcessed + 1);
    (s1.(conn := if s1.conn == NoConn then NoConn else Killed, listeners := map[],
         subscribed := false), out)
  }

  /** `dispose()`: mark disposed, then clean up; pending requests resolve empty. */
  function Dispose(s: Server): (r: (Server, seq<(int, Settlement)>))
    ensures r.0.disposed && r.0.listeners == map[]
    ensures forall i :: 0 <= i < |r.1| ==> r.1[i].1 == Resolved(None)
    ensures IdsOf(r.1) == Filter(Range(s.lastProcessed + 1, s.nextId), IsWaiting(s.listeners))
    ensures Inv(s) ==> Inv(r.0)
  {
    Cleanup(s.(disposed := true))
  }

  /** An error on the response stream: a live server cleans up (rejecting every
      pending request); in every case the connection is dropped and every issued
      id counts as processed, so the next request reconnects. */
  function StreamError(s: Server): (r: (Server, seq<(int, Settlement)>))
    ensures r.0.conn == NoConn && r.0.lastProcessed == s.nextId - 1
    ensures s.disposed ==> r.1 == [] && r.0 == s.(conn := NoConn, lastProcessed := s.nextId - 1)
    ensures !s.disposed ==> r.0.listeners == map[] && !r.0.subscribed
    ensures !s.disposed ==> forall i :: 0 <= i < |r.1| ==> r.1[i].1 == Rejected(KilledMessage)
    ensures !s.disposed ==>
      IdsOf(r.1) == Filter(Range(s.lastProcessed + 1, s.nextId), IsWaiting(s.listeners))
    ensures r.0.nextId == s.nextId && r.0.disposed == s.disposed && r.0.flagsChanged == s.flagsChanged
    ensures Inv(s) ==> Inv(r.0)
  {
    var (s1, out) := if !s.disposed then Cleanup(s) else (s, []);
    (s1.(conn := NoConn, lastProcessed := s.nextId - 1), out)
  }

  /** `flagsChanged` starts false and no event sets it back to false. */
  lemma FlagsChangedIsSticky(s: Server, m: Method, blocking: bool, call: nat, reply: FlagsReply,
                             id: int, resp: Response)
    requires s.flagsChanged
    ensures Admit(s, m, blocking).0.flagsChanged
    ensures call in s.active ==> Finish(s, call).flagsChanged
    ensures GetFlags(s, reply).0.flagsChanged && FlagsChangeNotified(s).flagsChanged
    ensures FlagsStreamEnded(s).flagsChanged && Respond(s, id, resp).0.flagsChanged
    ensures Cleanup(s).0.flagsChanged && Dispose(s).0.flagsChanged && StreamError(s).0.flagsChanged
  {
  }

  // ---------------------------------------------------------------- the defect

  /** A disposed server with a compile request (id 0) and a completion request
      (id 1) waiting: the compile listener throws while stamping the missing
      result, so `dispose()` stops after id 0. The completion request is never
      settled, its listener stays registered and the connection stays live. */
  lemma DisposeWithPendingCompileAborts()
    ensures
      var s := Init().(nextId := 2, written := [Frame(0, Compile, []), Frame(1, GetCompletions, [])],
                       listeners := map[0 := Listener(Compile, true), 1 := Listener(GetCompletions, true)],
                       conn := Live);
      var r := DisposeAsWritten(s);
      && r.2
      && r.1 == [(0, Threw)]
      && 1 in r.0.listeners
      && r.0.conn == Live
      && Cleanup(s.(disposed := true)).0.listeners == map[]
  {
    var s := Init().(nextId := 2, written := [Frame(0, Compile, []), Frame(1, GetCompletions, [])],
                     listeners := map[0 := Listener(Compile, true), 1 := Listener(GetCompletions, true)],
                     conn := Live);
    var sd := s.(disposed := true);
    assert SettleAsWritten(sd.listeners[0], KilledResponse(), true) == Threw;
  }
}

/**
 Method tables of a service (galay-rpc/kernel/rpc_service.h) and the two-level lookup of a server
 (galay-rpc/kernel/rpc_server.h:318-331, galay-rpc/kernel/streamsvc.h:184-196).
 */
module Service {
  import opened Wire
  import opened Codec

  /** The identity of a registered handler function. */
  type Handler = nat

  datatype Slots = Slots(handlers: seq<Handler>, registered: seq<bool>)

  const NoSlots := Slots([0, 0, 0], [false, false, false])

  /** `streamModeIndex`. */
  function StreamModeIndex(mode: CallMode): (i: nat)
    ensures i < 3
  {
    match mode
    case ClientStreaming => 0
    case ServerStreaming => 1
    case BidiStreaming => 2
    case Unary => 0
  }

  datatype Registration = ForMode(name: Bytes, mode: CallMode, handler: Handler) | ForSession(name: Bytes,
                                  handler: Handler)

  /** The last handler registered for exactly this name and mode. */
  function LastForMode(history: seq<Registration>, name: Bytes, mode: CallMode): Option<Handler> {
    if history == [] then None
    else
      var r := history[|history| - 1];
      if r.ForMode? && r.name == name && r.mode == mode then Some(r.handler)
      else LastForMode(history[..|history| - 1], name, mode)
  }

  function LastForSession(history: seq<Registration>, name: Bytes): Option<Handler> {
    if history == [] then None
    else
      var r := history[|history| - 1];
      if r.ForSession? && r.name == name then Some(r.handler) else LastForSession(history[..|history| - 1], name)
  }

  /** The names anything was registered under. */
  function Names(history: seq<Registration>): set<Bytes> { set r | r in history :: r.name }

  /** The three tables of a service. */
  datatype Tables = Tables(unary: map<Bytes, Handler>, streams: map<Bytes, Slots>, sessions: map<Bytes, Handler>) {
    predicate Shaped() {
      forall n :: n in streams ==> |streams[n].handlers| == |streams[n].registered| == 3
    }

    /** `findMethod(method, mode)`. */
    function FindMethod(name: Bytes, mode: CallMode): Option<Handler>
      requires Shaped()
    {
      if mode == Unary then (if name in unary then Some(unary[name]) else None)
      else if name !in streams then None
      else
        var i := StreamModeIndex(mode);
        if streams[name].registered[i] then Some(streams[name].handlers[i]) else None
    }

    /** `findStreamMethod`. */
    function FindStreamMethod(name: Bytes): Option<Handler> {
      if name in sessions then Some(sessions[name]) else None
    }

    /** The tables answer every lookup from the registration history, and hold exactly its names. */
    ghost predicate Refines(history: seq<Registration>) {
      && Shaped()
      && (forall n, m :: FindMethod(n, m) == LastForMode(history, n, m))
      && (forall n :: FindStreamMethod(n) == LastForSession(history, n))
      && unary.Keys + streams.Keys + sessions.Keys == Names(history)
    }

    function WithSlot(name: Bytes, i: nat, handler: Handler): Tables
      requires Shaped() && i < 3
    {
      var slots := if name in streams then streams[name] else NoSlots;
      this.(streams := streams[name := Slots(slots.handlers[i := handler], slots.registered[i := true])])
    }
  }

  lemma {:induction false} HistoryGrows(history: seq<Registration>, r: Registration, n: Bytes, m: CallMode)
    ensures LastForMode(history + [r], n, m) ==
            if r.ForMode? && r.name == n && r.mode == m then Some(r.handler) else LastForMode(history, n, m)
    ensures LastForSession(history + [r], n) ==
            if r.ForSession? && r.name == n then Some(r.handler) else LastForSession(history, n)
  {
  }

  lemma {:induction false} NamesGrow(history: seq<Registration>, r: Registration)
    ensures Names(history + [r]) == Names(history) + {r.name}
  {
  }

  /** The tables after a registration. */
  function Register(t: Tables, r: Registration): Tables
    requires t.Shaped()
  {
    match r
    case ForSession(name, handler) => t.(sessions := t.sessions[name := handler])
    case ForMode(name, mode, handler) =>
      if mode == Unary then t.(unary := t.unary[name := handler]) else t.WithSlot(name, StreamModeIndex(mode), handler)
  }

  lemma {:induction false} RegisterFinds(t: Tables, r: Registration, n: Bytes, m: CallMode)
    requires t.Shaped()
    ensures var t' := Register(t, r);
            && t'.Shaped()
            && t'.FindMethod(n, m)
               == (if r.ForMode? && r.name == n && r.mode == m then Some(r.handler) else t.FindMethod(n, m))
            && t'.FindStreamMethod(n)
               == (if r.ForSession? && r.name == n then Some(r.handler) else t.FindStreamMethod(n))
  {
  }

  lemma {:induction false} RegisterRefines(t: Tables, history: seq<Registration>, r: Registration)
    requires t.Refines(history)
    ensures Register(t, r).Refines(history + [r])
  {
    var t', h' := Register(t, r), history + [r];
    RegisterFinds(t, r, r.name, Unary);
    forall n, m
      ensures t'.FindMethod(n, m) == LastForMode(h', n, m)
    {
      RegisterFinds(t, r, n, m);
      HistoryGrows(history, r, n, m);
    }
    forall n
      ensures t'.FindStreamMethod(n) == LastForSession(h', n)
    {
      RegisterFinds(t, r, n, Unary);
      HistoryGrows(history, r, n, Unary);
    }
    NamesGrow(history, r);
  }

  class RpcService {
    var tables: Tables
    /** Everything ever registered, oldest first. */
    ghost var history: seq<Registration>

    ghost predicate Valid()
      reads this
    {
      tables.Refines(history)
    }

    constructor ()
      ensures Valid() && history == []
    {
      tables, history := Tables(map[], map[], map[]), [];
    }

    /** `registerMethodByMode`. */
    method RegisterMethodByMode(name: Bytes, mode: CallMode, handler: Handler)
      requires Valid()
      modifies this
      ensures Valid() && history == old(history) + [ForMode(name, mode, handler)]
    {
      RegisterRefines(tables, history, ForMode(name, mode, handler));
      if mode == Unary {
        tables := tables.(unary := tables.unary[name := handler]);
      } else {
        tables := tables.WithSlot(name, StreamModeIndex(mode), handler);
      }
      history := history + [ForMode(name, mode, handler)];
    }

    /** `registerStreamMethod`. */
    method RegisterStreamMethod(name: Bytes, handler: Handler)
      requires Valid()
      modifies this
      ensures Valid() && history == old(history) + [ForSession(name, handler)]
    {
      RegisterRefines(tables, history, ForSession(name, handler));
      tables := tables.(sessions := tables.sessions[name := handler]);
      history := history + [ForSession(name, handler)];
    }

    /** `methodNames`: every name with a handler in any table, once. */
    method MethodNames() returns (names: seq<Bytes>)
      requires Valid()
      ensures forall n :: n in names <==> n in Names(history)
      ensures forall i, j :: 0 <= i < j < |names| ==> names[i] != names[j]
    {
      names := AddNames([], tables.unary.Keys, {});
      names := AddNames(names, tables.streams.Keys, tables.unary.Keys);
      names := AddNames(names, tables.sessions.Keys, tables.unary.Keys + tables.streams.Keys);
    }
  }

  /** One of the loops of `methodNames`: adds the names that no earlier table had, in whatever order the table
      yields. */
  method AddNames(names: seq<Bytes>, table: set<Bytes>, earlier: set<Bytes>) returns (r: seq<Bytes>)
    requires forall n :: n in names <==> n in earlier
    requires forall i, j :: 0 <= i < j < |names| ==> names[i] != names[j]
    ensures forall n :: n in r <==> n in earlier || n in table
    ensures forall i, j :: 0 <= i < j < |r| ==> r[i] != r[j]
  {
    r := names;
    var todo := table;
    while todo != {}
      invariant todo <= table
      invariant forall n :: n in r <==> n in earlier || n in table - todo
      invariant forall i, j :: 0 <= i < j < |r| ==> r[i] != r[j]
      decreases |todo|
    {
      var n :| n in todo;
      todo := todo - {n};
      if n !in earlier {
        r := r + [n];
      }
    }
  }

  // ---- Lookup ----------------------------------------------------------------------------------------------

  datatype Key = Key(service: Bytes, method_: Bytes, mode: CallMode)

  /** A server's services as they stand while a connection is being served. */
  type Catalogue = c: map<Bytes, Tables> | forall n :: n in c ==> c[n].Shaped() witness map[]

  /** `resolveMethodHandler`. */
  function Resolve(catalogue: Catalogue, key: Key): Result<Handler> {
    if key.service !in catalogue then Err(SERVICE_NOT_FOUND)
    else match catalogue[key.service].FindMethod(key.method_, key.mode)
      case None => Err(METHOD_NOT_FOUND)
      case Some(h) => Ok(h)
  }

  /** `resolveStreamHandler`. */
  function ResolveStream(catalogue: Catalogue, service: Bytes, method_: Bytes): Result<Handler> {
    if service !in catalogue then Err(SERVICE_NOT_FOUND)
    else match catalogue[service].FindStreamMethod(method_)
      case None => Err(METHOD_NOT_FOUND)
      case Some(h) => Ok(h)
  }

  // ---- What a lookup finds ---------------------------------------------------------------------------------------

  /** The services were made by these registrations, service by service, oldest first. */
  ghost predicate MadeBy(catalogue: Catalogue, histories: map<Bytes, seq<Registration>>) {
    catalogue.Keys == histories.Keys && forall n :: n in catalogue ==> catalogue[n].Refines(histories[n])
  }

  /** A route leads to the last handler registered for exactly this service, method and mode; the errors say whether the
      service or the method is missing. */
  lemma {:induction false} MethodRoute(catalogue: Catalogue, histories: map<Bytes, seq<Registration>>,
                                       service: Bytes, method_: Bytes, mode: CallMode)
    requires MadeBy(catalogue, histories)
    ensures Resolve(catalogue, Key(service, method_, mode))
         == if service !in histories then Err(2)
            else match LastForMode(histories[service], method_, mode)
              case None => Err(3)
              case Some(h) => Ok(h)
  {
    if service in histories {
      assert catalogue[service].FindMethod(method_, mode) == LastForMode(histories[service], method_, mode);
    }
  }

  /** A stream's route leads to the last handler registered for sessions of exactly this service and method, whatever is
      registered there for single calls. */
  lemma {:induction false} StreamRoute(catalogue: Catalogue, histories: map<Bytes, seq<Registration>>,
                                       service: Bytes, method_: Bytes)
    requires MadeBy(catalogue, histories)
    ensures ResolveStream(catalogue, service, method_)
         == if service !in histories then Err(2)
            else match LastForSession(histories[service], method_)
              case None => Err(3)
              case Some(h) => Ok(h)
  {
    if service in histories {
      assert catalogue[service].FindStreamMethod(method_) == LastForSession(histories[service], method_);
    }
  }
}

/**
yaf_dispatcher.c: one request through routing, plugin hooks and the forward loop, with exceptions
caught at most once.  Plugins, routers, controllers and actions are arbitrary oracles.
*/
module Dispatcher {
  import opened Strtok
  import RequestNames

  // ---------------------------------------------------------------- state

  // An exception in flight: a catchable one, and one that says a controller was not found.
  datatype Exc = Exc(catchable: bool, noController: bool)

  datatype Request = Request(names: RequestNames.Names, routed: bool, dispatched: bool)

  datatype Hook = RouterStartup | RouterShutdown | LoopStartup | PreDispatch | PostDispatch | LoopShutdown

  datatype Call = Plugin(hook: Hook) | Handle | Caught

  // The request, the exception in flight, the latch of the error path, and what happened so far: the
  // calls, and the request that each of them saw.
  datatype World = World(req: Request, exc: Option<Exc>, latch: bool, trace: seq<Call>, seen: seq<Request>)

  // What code that is not the dispatcher's leaves behind.
  datatype Effect = Effect(req: Request, exc: Option<Exc>)

  // The outcome of an action or a rendering: no value, false, or anything else.
  datatype Outcome = NoValue | False | Other

  datatype Lookup = Class | NoClass(exc: Option<Exc>)

  /**
  Everything the dispatcher calls.  Each oracle sees the whole world so far; more counts the
  forwards from init methods that one handling goes through: they end, and the next init does not forward.
  */
  datatype Env = Env(
    defaults: RequestNames.Defaults,
    catching: World -> bool,
    plugin: (Hook, World) -> Effect,
    router: World -> (bool, Effect),
    routeError: World -> Option<Exc>,
    limitError: World -> Option<Exc>,
    view: World -> bool,
    setParam: World -> bool,
    hasDirectory: bool,
    isModule: string -> bool,
    error: World -> Option<Exc>,
    controller: World -> Lookup,
    init: World -> Effect,
    more: World -> nat,
    findAction: World -> (bool, Effect),
    action: World -> (Outcome, Effect),
    rendering: World -> bool,
    render: World -> (Outcome, Effect))

  function Affected(w: World, e: Effect): World { w.(req := e.req, exc := e.exc) }

  function Noted(w: World, c: Call): World { w.(trace := w.trace + [c], seen := w.seen + [w.req]) }

  function WithNames(w: World, n: RequestNames.Names): World { w.(req := w.req.(names := n)) }

  function Run(env: Env, w: World, hook: Hook): World {
    var noted := Noted(w, Plugin(hook));
    Affected(noted, env.plugin(hook, noted))
  }

  function FixDefault(env: Env, w: World): World {
    WithNames(w, RequestNames.Fixed(env.defaults, w.req.names))
  }

  // ---------------------------------------------------------------- yaf_dispatcher_handle

  function Raised(w: World, e: Option<Exc>): World { if e.None? then w else w.(exc := e) }

  /** The control skeleton of one handling; a forward from init starts it again. */
  function Handled(env: Env, w0: World, fuel: nat): (bool, World)
    decreases fuel
  {
    var w := w0.(req := w0.req.(dispatched := true));
    var n := w.req.names;
    if !env.hasDirectory || RequestNames.Missing(n.m) || !env.isModule(n.m.value) || RequestNames.Missing(n.c) then
      (false, Raised(w, env.error(w)))
    else
      var class_ := env.controller(w);
      if class_.NoClass? then (false, Raised(w, class_.exc))
      else
        var inited := Affected(w, Init(env, w, fuel));
        if inited.exc.Some? then (false, inited)
        else if !inited.req.dispatched then Handled(env, inited, fuel - 1)
        else Acted(env, inited)
  }

  /** What init leaves behind; when no forward is left, it does not ask for one. */
  function Init(env: Env, w: World, fuel: nat): (e: Effect)
    ensures !e.req.dispatched ==> fuel > 0
  {
    var e := env.init(w);
    if fuel == 0 then e.(req := e.req.(dispatched := true)) else e
  }

  /** From the found controller on: the action, and its rendering unless it answers false. */
  function Acted(env: Env, w: World): (bool, World) {
    var (found, e) := env.findAction(w);
    var looked := Affected(w, e);
    if !found then (false, looked)
    else
      var (result, f) := env.action(looked);
      var acted := Affected(looked, f);
      match result
      case NoValue => (false, acted)
      case False => (true, acted)
      case Other =>
        if !env.rendering(acted) then (true, acted)
        else
          var (shown, g) := env.render(acted);
          (shown == Other, Affected(acted, g))
  }

  /** One call of yaf_dispatcher_handle from the dispatcher. */
  function HandleCall(env: Env, w: World): (bool, World) {
    var noted := Noted(w, Handle);
    Handled(env, noted, env.more(noted))
  }

  // ---------------------------------------------------------------- the error path

  const ERROR_CONTROLLER := "Error"
  const ERROR_ACTION := "error"

  function ErrorRequest(env: Env, w: World): World {
    var m := if RequestNames.Missing(w.req.names.m) then Some(env.defaults.m) else w.req.names.m;
    WithNames(w, RequestNames.Names(m, Some(ERROR_CONTROLLER), Some(ERROR_ACTION))).(exc := None)
  }

  function Undispatched(w: World): World { w.(req := w.req.(dispatched := false)) }

  /**
  yaf_dispatcher_exception_handler: nothing if latched; else the error controller, perhaps of the
  default module.  A request that does not take the exception as a parameter leaves it uncaught.
  */
  function Recover(env: Env, w: World): World {
    if w.latch || w.exc.None? then w
    else
      var asked := ErrorRequest(env, Noted(w.(latch := true), Caught));
      if !env.setParam(asked) then asked.(exc := w.exc)
      else
        var r := Undispatched(asked);
        if !env.view(r) then r
        else
          var (ok, h) := HandleCall(env, r);
          if !ok && h.exc.Some? && h.exc.value.noController then
            var n := h.req.names;
            HandleCall(env, WithNames(h, n.(m := Some(env.defaults.m))).(exc := None)).1
          else h
  }

  /** YAF_EXCEPTION_HANDLE up to the return. */
  function Checked(env: Env, w: World): World {
    if w.exc.Some? && env.catching(w) && w.exc.value.catchable then Recover(env, w) else w
  }

  // ---------------------------------------------------------------- yaf_dispatcher_dispatch

  const UINT_RANGE := 0x1_0000_0000

  // A response only at the end of a complete run.
  datatype Result = Null | Response

  // Stopped with nothing to return, or still going.
  datatype Step = Stop(w: World) | Go(w: World)

  /** A hook and the exception check behind it. */
  function HookStep(env: Env, w: World, hook: Hook): Step {
    var v := Run(env, w, hook);
    if v.exc.Some? then Stop(Checked(env, v)) else Go(v)
  }

  function RouteStep(env: Env, w: World): Step {
    if w.req.routed then Go(FixDefault(env, w))
    else
      var started := HookStep(env, w, RouterStartup);
      if started.Stop? then started
      else
        var (ok, e) := env.router(started.w);
        var v := Affected(started.w, e);
        if !ok then Stop(Checked(env, Raised(v, env.routeError(v))))
        else
          var shut := HookStep(env, FixDefault(env, v), RouterShutdown);
          if shut.Stop? then shut else Go(shut.w.(req := shut.w.req.(routed := true)))
  }

  /** The body of the loop: hooks around one handling. */
  function Round(env: Env, w: World): Step {
    var pre := HookStep(env, w, PreDispatch);
    if pre.Stop? then pre
    else
      var (ok, h) := HandleCall(env, pre.w);
      if !ok then Stop(Checked(env, h)) else HookStep(env, FixDefault(env, h), PostDispatch)
  }

  /** The rounds left, once the counter was decremented; it wraps below zero. */
  function Decremented(nesting: nat): nat { if nesting == 0 then UINT_RANGE - 1 else nesting - 1 }

  function Loop(env: Env, w: World, nesting: nat): (Step, nat)
    requires nesting < UINT_RANGE
    decreases if nesting == 0 then UINT_RANGE else nesting
  {
    var r := Round(env, w);
    var left := Decremented(nesting);
    if r.Stop? || left == 0 || r.w.req.dispatched then (r, left) else Loop(env, r.w, left)
  }

  function Dispatched(env: Env, w: World, limit: nat): (Result, World)
    requires limit < UINT_RANGE
  {
    var routed := RouteStep(env, w);
    if routed.Stop? then (Null, routed.w)
    else
      var started := HookStep(env, routed.w, LoopStartup);
      if started.Stop? then (Null, started.w)
      else if !env.view(started.w) then (Null, started.w)
      else Looped(env, started.w, limit)
  }

  /** The loop and what stands behind it. */
  function Looped(env: Env, w: World, limit: nat): (Result, World)
    requires limit < UINT_RANGE
  {
    var (looped, left) := Loop(env, w, limit);
    if looped.Stop? then (Null, looped.w)
    else
      var shut := HookStep(env, looped.w, LoopShutdown);
      if shut.Stop? then (Null, shut.w)
      else if left == 0 && !shut.w.req.dispatched then
        (Null, Checked(env, Raised(shut.w, env.limitError(shut.w))))
      else (Response, shut.w)
  }

  // ---------------------------------------------------------------- the trace

  function Rounds(limit: nat): nat { if limit == 0 then UINT_RANGE else limit }

  const ROUND := [Plugin(PreDispatch), Handle, Plugin(PostDispatch)]

  function Repeated(k: nat): seq<Call> { if k == 0 then [] else ROUND + Repeated(k - 1) }

  function RouteCalls(routed: bool): seq<Call> {
    if routed then [] else [Plugin(RouterStartup), Plugin(RouterShutdown)]
  }

  /** The calls of a complete run with k rounds. */
  function Complete(routed: bool, k: nat): seq<Call> {
    RouteCalls(routed) + [Plugin(LoopStartup)] + Repeated(k) + [Plugin(LoopShutdown)]
  }

  // What the error path adds to the trace: nothing, or itself with at most two handlings; it sets the latch.
  predicate Recovery(rec: seq<Call>, before: bool, after: bool) {
    || (rec == [] && after == before)
    || (!before && after && (rec == [Caught] || rec == [Caught, Handle] || rec == [Caught, Handle, Handle]))
  }

  predicate Grew(w: World, v: World, p: seq<Call>, rec: seq<Call>) {
    v.trace == w.trace + p + rec && Recovery(rec, w.latch, v.latch)
  }

  lemma {:induction false} HandledKeeps(env: Env, w: World, fuel: nat)
    ensures Handled(env, w, fuel).1.trace == w.trace && Handled(env, w, fuel).1.latch == w.latch
    decreases fuel
  {
    var v := w.(req := w.req.(dispatched := true));
    var inited := Affected(v, Init(env, v, fuel));
    if fuel > 0 { HandledKeeps(env, inited, fuel - 1); }
  }

  lemma HandleCallGrows(env: Env, w: World)
    ensures Grew(w, HandleCall(env, w).1, [Handle], [])
  {
    var noted := Noted(w, Handle);
    HandledKeeps(env, noted, env.more(noted));
  }

  /** The error path runs at most once: it needs the latch open, and closes it. */
  lemma CheckedGrows(env: Env, w: World) returns (rec: seq<Call>)
    ensures Grew(w, Checked(env, w), [], rec)
  {
    rec := [];
    if w.exc.Some? && env.catching(w) && w.exc.value.catchable && !w.latch {
      var asked := ErrorRequest(env, Noted(w.(latch := true), Caught));
      var r := Undispatched(asked);
      rec := [Caught];
      if env.setParam(asked) && env.view(r) {
        var (ok, h) := HandleCall(env, r);
        HandleCallGrows(env, r);
        rec := [Caught, Handle];
        if !ok && h.exc.Some? && h.exc.value.noController {
          HandleCallGrows(env, WithNames(h, h.req.names.(m := Some(env.defaults.m))).(exc := None));
          rec := [Caught, Handle, Handle];
        }
      }
    }
  }

  lemma HookStepGrows(env: Env, w: World, hook: Hook) returns (rec: seq<Call>)
    ensures var s := HookStep(env, w, hook);
      Grew(w, s.w, [Plugin(hook)], rec) && (s.Go? ==> rec == [] && s.w.exc.None? && s.w.latch == w.latch)
  {
    rec := CheckedGrows(env, Run(env, w, hook));
    if HookStep(env, w, hook).Go? { rec := []; }
  }

  lemma GrewOn(w: World, v: World, u: World, p: seq<Call>, q: seq<Call>, rec: seq<Call>)
    requires Grew(w, v, p, []) && Grew(v, u, q, rec)
    ensures Grew(w, u, p + q, rec)
  {
    assert w.trace + p + [] + q + rec == w.trace + (p + q) + rec;
  }

  /** What a step did: all of its calls, or a part of them and perhaps the error path. */
  ghost predicate Did(w: World, s: Step, all: seq<Call>, p: seq<Call>, rec: seq<Call>) {
    && p <= all && Grew(w, s.w, p, rec)
    && (s.Go? ==> p == all && rec == [] && s.w.latch == w.latch)
  }

  lemma RoundDid(env: Env, w: World) returns (p: seq<Call>, rec: seq<Call>)
    ensures Did(w, Round(env, w), ROUND, p, rec) && (Round(env, w).Go? ==> Round(env, w).w.exc.None?)
  {
    var pre := HookStep(env, w, PreDispatch);
    rec := HookStepGrows(env, w, PreDispatch);
    p := [Plugin(PreDispatch)];
    if pre.Go? {
      var (ok, h) := HandleCall(env, pre.w);
      HandleCallGrows(env, pre.w);
      GrewOn(w, pre.w, h, p, [Handle], []);
      p := [Plugin(PreDispatch), Handle];
      assert [Plugin(PreDispatch)] + [Handle] == p;
      if !ok {
        rec := CheckedGrows(env, h);
        GrewOn(w, h, Checked(env, h), p, [], rec);
        assert p + [] == p;
      } else {
        var f := FixDefault(env, h);
        rec := HookStepGrows(env, f, PostDispatch);
        var post := HookStep(env, f, PostDispatch);
        GrewOn(w, f, post.w, p, [Plugin(PostDispatch)], rec);
        assert p + [Plugin(PostDispatch)] == ROUND;
        p := ROUND;
      }
    }
  }

  lemma PrefixOfMore(a: seq<Call>, p: seq<Call>, b: seq<Call>)
    requires p <= b
    ensures a + p <= a + b
  {
  }

  lemma RoundThenLoop(w: World, r: Step, s: Step, j: nat, q: seq<Call>, rec: seq<Call>)
    requires r.Go? && Did(w, r, ROUND, ROUND, []) && Did(r.w, s, Repeated(j), q, rec)
    ensures Did(w, s, Repeated(j + 1), ROUND + q, rec)
  {
    GrewOn(w, r.w, s.w, ROUND, q, rec);
    PrefixOfMore(ROUND, q, Repeated(j));
  }

  /** The loop: whole rounds, at most as many as the limit allows, and the last one perhaps cut short. */
  lemma {:induction false} LoopDid(env: Env, w: World, nesting: nat) returns (k: nat, p: seq<Call>, rec: seq<Call>)
    requires nesting < UINT_RANGE
    ensures 1 <= k <= Rounds(nesting) && Did(w, Loop(env, w, nesting).0, Repeated(k), p, rec)
    ensures var (s, left) := Loop(env, w, nesting);
      s.Go? ==> left == Rounds(nesting) - k && s.w.exc.None? && (s.w.req.dispatched || k == Rounds(nesting))
    decreases if nesting == 0 then UINT_RANGE else nesting
  {
    var r := Round(env, w);
    var left := Decremented(nesting);
    p, rec := RoundDid(env, w);
    if r.Stop? || left == 0 || r.w.req.dispatched {
      k := 1;
      assert Repeated(1) == ROUND + Repeated(0) == ROUND;
    } else {
      var j, q, later := LoopDid(env, r.w, left);
      k, rec, p := j + 1, later, ROUND + q;
      RoundThenLoop(w, r, Loop(env, r.w, left).0, j, q, later);
    }
  }

  lemma RouteStepDid(env: Env, w: World) returns (p: seq<Call>, rec: seq<Call>)
    ensures Did(w, RouteStep(env, w), RouteCalls(w.req.routed), p, rec)
  {
    p, rec := [], [];
    if w.req.routed {
      assert w.trace + [] + [] == w.trace;
    } else {
      var started := HookStep(env, w, RouterStartup);
      rec := HookStepGrows(env, w, RouterStartup);
      p := [Plugin(RouterStartup)];
      if started.Go? {
        var (ok, e) := env.router(started.w);
        var v := Affected(started.w, e);
        if !ok {
          rec := CheckedGrows(env, Raised(v, env.routeError(v)));
          GrewOn(w, Raised(v, env.routeError(v)), RouteStep(env, w).w, p, [], rec);
          assert p + [] == p;
        } else {
          var f := FixDefault(env, v);
          rec := HookStepGrows(env, f, RouterShutdown);
          GrewOn(w, f, HookStep(env, f, RouterShutdown).w, p, [Plugin(RouterShutdown)], rec);
          assert p + [Plugin(RouterShutdown)] == RouteCalls(false);
          p := RouteCalls(false);
        }
      }
    }
  }

  /** From the start of the loop on. */
  lemma LoopedDid(env: Env, w: World, limit: nat) returns (k: nat, p: seq<Call>, rec: seq<Call>)
    requires limit < UINT_RANGE
    ensures var (result, v) := Looped(env, w, limit); var all := Repeated(k) + [Plugin(LoopShutdown)];
      && 1 <= k <= Rounds(limit) && p <= all && Grew(w, v, p, rec)
      && (result == Response ==>
            p == all && rec == [] && v.exc.None? && v.latch == w.latch && (v.req.dispatched || k < Rounds(limit)))
  {
    var (looped, left) := Loop(env, w, limit);
    k, p, rec := LoopDid(env, w, limit);
    if looped.Go? {
      var shut := HookStep(env, looped.w, LoopShutdown);
      rec := HookStepGrows(env, looped.w, LoopShutdown);
      GrewOn(w, looped.w, shut.w, Repeated(k), [Plugin(LoopShutdown)], rec);
      p := Repeated(k) + [Plugin(LoopShutdown)];
      if shut.Go? && left == 0 && !shut.w.req.dispatched {
        var raised := Raised(shut.w, env.limitError(shut.w));
        rec := CheckedGrows(env, raised);
        GrewOn(w, raised, Checked(env, raised), p, [], rec);
        assert p + [] == p;
      }
    } else {
      assert p <= Repeated(k) + [Plugin(LoopShutdown)];
    }
  }

  lemma CompleteParts(routing: seq<Call>, routed: bool, k: nat)
    requires routing == RouteCalls(routed)
    ensures Complete(routed, k) == (routing + [Plugin(LoopStartup)]) + (Repeated(k) + [Plugin(LoopShutdown)])
    ensures routing <= routing + [Plugin(LoopStartup)] <= Complete(routed, k)
  {
  }

  /**
  Every run, whatever the oracles do: the calls are a prefix of a complete run with at most as many
  rounds as the limit allows, followed at most once by the error path with at most two handlings.
  A response is returned only behind a complete run without the error path, with nothing in flight,
  and with the request dispatched unless rounds were left.
  */
  lemma RunShape(env: Env, w: World, limit: nat) returns (k: nat, p: seq<Call>, rec: seq<Call>)
    requires limit < UINT_RANGE
    ensures var (result, v) := Dispatched(env, w, limit);
      && k <= Rounds(limit) && p <= Complete(w.req.routed, k) && Grew(w, v, p, rec)
      && (result == Response ==>
            && k >= 1 && p == Complete(w.req.routed, k) && rec == [] && v.exc.None? && v.latch == w.latch
            && (v.req.dispatched || k < Rounds(limit)))
  {
    var routing := RouteCalls(w.req.routed);
    var routed := RouteStep(env, w);
    p, rec := RouteStepDid(env, w);
    k := 0;
    CompleteParts(routing, w.req.routed, 0);
    if routed.Go? {
      var started := HookStep(env, routed.w, LoopStartup);
      var front := routing + [Plugin(LoopStartup)];
      rec := HookStepGrows(env, routed.w, LoopStartup);
      GrewOn(w, routed.w, started.w, routing, [Plugin(LoopStartup)], rec);
      p := front;
      if started.Go? && env.view(started.w) {
        var q: seq<Call>;
        k, q, rec := LoopedDid(env, started.w, limit);
        GrewOn(w, started.w, Looped(env, started.w, limit).1, front, q, rec);
        CompleteParts(routing, w.req.routed, k);
        PrefixOfMore(front, q, Repeated(k) + [Plugin(LoopShutdown)]);
        p := front + q;
      }
    }
  }

  function Handlings(calls: seq<Call>): nat {
    if calls == [] then 0 else (if calls[0] == Handle then 1 else 0) + Handlings(calls[1..])
  }

  lemma {:induction false} HandlingsJoin(a: seq<Call>, b: seq<Call>)
    ensures Handlings(a + b) == Handlings(a) + Handlings(b)
  {
    if a == [] {
      assert a + b == b;
    } else {
      assert (a + b)[1..] == a[1..] + b;
      HandlingsJoin(a[1..], b);
    }
  }

  lemma {:induction false} HandlingsOfRepeated(k: nat)
    ensures Handlings(Repeated(k)) == k
  {
    if k > 0 {
      HandlingsJoin(ROUND, Repeated(k - 1));
      HandlingsOfRepeated(k - 1);
      assert ROUND[1..] == [Handle, Plugin(PostDispatch)] && ROUND[1..][1..] == [Plugin(PostDispatch)];
      assert ROUND[1..][1..][1..] == [];
    }
  }

  lemma HandlingsOfRecovery(rec: seq<Call>, before: bool, after: bool)
    requires Recovery(rec, before, after)
    ensures Handlings(rec) <= 2
  {
    assert [Caught, Handle, Handle][1..] == [Handle, Handle] && [Handle, Handle][1..] == [Handle];
    assert [Caught, Handle][1..] == [Handle] && [Handle][1..] == [] && [Caught][1..] == [];
  }

  /** However requests forward and fail, one dispatch handles at most limit + 2 times. */
  lemma HandlingsAreBounded(env: Env, w: World, limit: nat)
    requires limit < UINT_RANGE
    ensures Handlings(Dispatched(env, w, limit).1.trace) <= Handlings(w.trace) + Rounds(limit) + 2
    ensures w.latch ==> Handlings(Dispatched(env, w, limit).1.trace) <= Handlings(w.trace) + Rounds(limit)
  {
    var k, p, rec := RunShape(env, w, limit);
    var all := Complete(w.req.routed, k);
    HandlingsJoin(w.trace + p, rec);
    HandlingsJoin(w.trace, p);
    HandlingsOfRecovery(rec, w.latch, Dispatched(env, w, limit).1.latch);
    assert all == p + all[|p|..];
    HandlingsJoin(p, all[|p|..]);
    HandlingsOfComplete(w.req.routed, k);
  }

  lemma HandlingsOfComplete(routed: bool, k: nat)
    ensures Handlings(Complete(routed, k)) == k
  {
    var front := RouteCalls(routed) + [Plugin(LoopStartup)];
    HandlingsJoin(front + Repeated(k), [Plugin(LoopShutdown)]);
    HandlingsJoin(front, Repeated(k));
    HandlingsOfRepeated(k);
    HandlingsJoin(RouteCalls(routed), [Plugin(LoopStartup)]);
    assert [Plugin(LoopStartup)][1..] == [] && [Plugin(LoopShutdown)][1..] == [];
    assert Handlings(RouteCalls(routed)) == 0 by {
      if !routed {
        assert RouteCalls(routed)[1..] == [Plugin(RouterShutdown)] && [Plugin(RouterShutdown)][1..] == [];
      }
    }
  }

  // ---------------------------------------------------------------- the dispatcher

  /** The request and the globals, changed step by step. */
  class RequestDispatcher {
    const env: Env
    var names: RequestNames.Names
    var routed: bool
    var dispatched: bool
    var exc: Option<Exc>
    var inException: bool
    var trace: seq<Call>
    var seen: seq<Request>

    constructor (e: Env, n: RequestNames.Names, isRouted: bool)
      ensures env == e && Now() == World(Request(n, isRouted, false), None, false, [], [])
    {
      env, names, routed, dispatched := e, n, isRouted, false;
      exc, inException, trace, seen := None, false, [], [];
    }

    function Now(): World
      reads this
    {
      World(Request(names, routed, dispatched), exc, inException, trace, seen)
    }

    /** Foreign code may change the request and raise or clear exceptions. */
    method Leave(e: Effect)
      modifies `names, `routed, `dispatched, `exc
      ensures Now() == Affected(old(Now()), e)
    {
      names, routed, dispatched, exc := e.req.names, e.req.routed, e.req.dispatched, e.exc;
    }

    method Raise(e: Option<Exc>)
      modifies `exc
      ensures Now() == Raised(old(Now()), e)
    {
      if e.Some? { exc := e; }
    }

    method PluginHandle(hook: Hook)
      modifies this
      ensures Now() == Run(env, old(Now()), hook)
    {
      trace, seen := trace + [Plugin(hook)], seen + [Request(names, routed, dispatched)];
      Leave(env.plugin(hook, Now()));
    }

    method FixNames()
      modifies `names
      ensures Now() == FixDefault(env, old(Now()))
    {
      names := RequestNames.FixDefault(env.defaults, names);
    }

    method HandleRequest() returns (ok: bool)
      modifies this
      ensures (ok, Now()) == HandleCall(env, old(Now()))
    {
      trace, seen := trace + [Handle], seen + [Request(names, routed, dispatched)];
      ok := HandleAgain(env.more(Now()));
    }

    method HandleAgain(fuel: nat) returns (ok: bool)
      modifies this
      ensures (ok, Now()) == Handled(env, old(Now()), fuel)
      decreases fuel
    {
      dispatched := true;
      if !env.hasDirectory || RequestNames.Missing(names.m) || !env.isModule(names.m.value) || RequestNames.Missing(names.c) {
        Raise(env.error(Now()));
        return false;
      }
      var class_ := env.controller(Now());
      if class_.NoClass? {
        Raise(class_.exc);
        return false;
      }
      Leave(Init(env, Now(), fuel));
      if exc.Some? {
        return false;
      }
      if !dispatched {
        ok := HandleAgain(fuel - 1);
        return;
      }
      ok := Act();
    }

    method Act() returns (ok: bool)
      modifies this
      ensures (ok, Now()) == Acted(env, old(Now()))
    {
      var (found, e) := env.findAction(Now());
      Leave(e);
      if !found {
        return false;
      }
      var (result, f) := env.action(Now());
      Leave(f);
      if result == NoValue {
        return false;
      }
      if result == False || !env.rendering(Now()) {
        return true;
      }
      var (shown, g) := env.render(Now());
      Leave(g);
      return shown == Other;
    }

    method ExceptionHandler()
      modifies this
      ensures Now() == Recover(env, old(Now()))
    {
      hide HandleCall;
      if inException || exc.None? {
        return;
      }
      inException := true;
      trace, seen := trace + [Caught], seen + [Request(names, routed, dispatched)];
      if RequestNames.Missing(names.m) {
        names := names.(m := Some(env.defaults.m));
      }
      var exception := exc;
      exc := None;
      names := names.(c := Some(ERROR_CONTROLLER), a := Some(ERROR_ACTION));
      if !env.setParam(Now()) {
        exc := exception;
        return;
      }
      dispatched := false;
      if !env.view(Now()) {
        return;
      }
      var ok := HandleRequest();
      if !ok && exc.Some? && exc.value.noController {
        names := names.(m := Some(env.defaults.m));
        exc := None;
        ok := HandleRequest();
      }
    }

    /** The check behind every hook: an exception ends the dispatch, caught or not. */
    method ExceptionHandle() returns (stop: bool)
      modifies this
      ensures stop == old(exc).Some? && Now() == Checked(env, old(Now()))
    {
      stop := exc.Some?;
      if exc.Some? && env.catching(Now()) && exc.value.catchable {
        ExceptionHandler();
      }
    }

    method HookThenCheck(hook: Hook) returns (stop: bool)
      modifies this
      ensures HookStep(env, old(Now()), hook) == if stop then Stop(Now()) else Go(Now())
    {
      PluginHandle(hook);
      stop := ExceptionHandle();
    }

    method RouteRequest() returns (stop: bool)
      modifies this
      ensures RouteStep(env, old(Now())) == if stop then Stop(Now()) else Go(Now())
    {
      if routed {
        FixNames();
        return false;
      }
      stop := HookThenCheck(RouterStartup);
      if stop {
        return;
      }
      var (ok, e) := env.router(Now());
      Leave(e);
      if !ok {
        Raise(env.routeError(Now()));
        stop := ExceptionHandle();
        return true;
      }
      FixNames();
      stop := HookThenCheck(RouterShutdown);
      if !stop {
        routed := true;
      }
    }

    method OneRound() returns (stop: bool)
      modifies this
      ensures Round(env, old(Now())) == if stop then Stop(Now()) else Go(Now())
    {
      stop := HookThenCheck(PreDispatch);
      if stop {
        return;
      }
      var ok := HandleRequest();
      if !ok {
        stop := ExceptionHandle();
        return true;
      }
      FixNames();
      stop := HookThenCheck(PostDispatch);
    }

    /** do .. while (--nesting > 0 && the request is not dispatched) */
    method RunLoop(limit: nat) returns (stop: bool, nesting: nat)
      requires limit < UINT_RANGE
      modifies this
      ensures Loop(env, old(Now()), limit) == (if stop then Stop(Now()) else Go(Now()), nesting)
    {
      nesting, stop := limit, false;
      ghost var goal := Loop(env, Now(), limit);
      var more := true;
      while more
        invariant nesting < UINT_RANGE
        invariant if more then Loop(env, Now(), nesting) == goal
                  else goal == (if stop then Stop(Now()) else Go(Now()), nesting)
        decreases more, if nesting == 0 then UINT_RANGE else nesting
      {
        stop := OneRound();
        nesting := if nesting == 0 then UINT_RANGE - 1 else nesting - 1;
        more := !stop && nesting > 0 && !dispatched;
      }
    }

    method LoopAndShutdown(limit: nat) returns (result: Result)
      requires limit < UINT_RANGE
      modifies this
      ensures (result, Now()) == Looped(env, old(Now()), limit)
    {
      var stop, nesting := RunLoop(limit);
      if stop {
        return Null;
      }
      stop := HookThenCheck(LoopShutdown);
      if stop {
        return Null;
      }
      if nesting == 0 && !dispatched {
        Raise(env.limitError(Now()));
        stop := ExceptionHandle();
        return Null;
      }
      return Response;
    }

    method Dispatch(limit: nat) returns (result: Result)
      requires limit < UINT_RANGE
      modifies this
      ensures (result, Now()) == Dispatched(env, old(Now()), limit)
    {
      var stop := RouteRequest();
      if stop {
        return Null;
      }
      stop := HookThenCheck(LoopStartup);
      if stop || !env.view(Now()) {
        return Null;
      }
      result := LoopAndShutdown(limit);
    }
  }
}

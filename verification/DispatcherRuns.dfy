/**
What the calls of one dispatch see of the request in yaf_dispatcher.c: the names in front of every hook
and handling, the request of the error path, and the course of a run that nothing disturbs.
*/
module DispatcherRuns {
  import opened Strtok
  import opened Dispatcher
  import N = RequestNames

  // From w to v the calls cs were made, and they saw the requests rs.
  ghost predicate Saw(w: World, v: World, cs: seq<Call>, rs: seq<Request>) {
    v.trace == w.trace + cs && v.seen == w.seen + rs && |cs| == |rs|
  }

  lemma SawOn(w: World, v: World, u: World, cs: seq<Call>, rs: seq<Request>, ds: seq<Call>, qs: seq<Request>)
    requires Saw(w, v, cs, rs) && Saw(v, u, ds, qs)
    ensures Saw(w, u, cs + ds, rs + qs)
  {
    assert w.trace + cs + ds == w.trace + (cs + ds);
    assert w.seen + rs + qs == w.seen + (rs + qs);
  }

  lemma SawNothing(w: World, v: World)
    requires v.trace == w.trace && v.seen == w.seen
    ensures Saw(w, v, [], [])
  {
  }

  lemma {:induction false} HandledSaw(env: Env, w: World, fuel: nat)
    ensures var v := Handled(env, w, fuel).1; v.trace == w.trace && v.seen == w.seen
    decreases fuel
  {
    var v := w.(req := w.req.(dispatched := true));
    if fuel > 0 { HandledSaw(env, Affected(v, Init(env, v, fuel)), fuel - 1); }
  }

  lemma HandleCallSaw(env: Env, w: World)
    ensures Saw(w, HandleCall(env, w).1, [Handle], [w.req])
  {
    HandledSaw(env, Noted(w, Handle), env.more(Noted(w, Handle)));
  }

  // ---------------------------------------------------------------- the error path

  // The request that the error path asks for.
  ghost predicate AsksForError(env: Env, w: World, n: N.Names) {
    && n.c == Some("Error") && n.a == Some("error")
    && n.m == if w.req.names.m.Some? && w.req.names.m.value != "" then w.req.names.m else Some(env.defaults.m)
  }

  /**
  The error path, exactly: it runs if and only if a catchable exception is in flight, exceptions are
  caught, and it did not run before.  It closes the latch; if the request takes the exception and there
  is a view, it handles the error action of the error controller, in the module of the request, and
  once more in the default module exactly if the controller is not found there.
  */
  lemma ErrorPath(env: Env, w: World) returns (cs: seq<Call>, rs: seq<Request>)
    ensures var v := Checked(env, w);
      && Saw(w, v, cs, rs)
      && (w.exc.Some? && env.catching(w) && w.exc.value.catchable && !w.latch <==> cs != [])
      && (cs == [] ==> v == w)
      && (cs != [] ==> v.latch && cs[0] == Caught && rs[0] == w.req && |cs| <= 3)
      && (|cs| > 1 ==> cs[1] == Handle && AsksForError(env, w, rs[1].names) && !rs[1].dispatched)
      && (|cs| > 2 ==> cs[2] == Handle && rs[2].names.m == Some(env.defaults.m))
    ensures w.exc.Some? && env.catching(w) && w.exc.value.catchable && !w.latch ==>
      var asked := ErrorRequest(env, Noted(w.(latch := true), Caught));
      && (!env.setParam(asked) ==> |cs| == 1 && Checked(env, w).exc == w.exc)
      && (env.setParam(asked) && !env.view(Undispatched(asked)) ==> |cs| == 1 && Checked(env, w).exc.None?)
      && (env.setParam(asked) && env.view(Undispatched(asked)) ==>
            var (ok, h) := HandleCall(env, Undispatched(asked));
            |cs| == if !ok && h.exc.Some? && h.exc.value.noController then 3 else 2)
  {
    cs, rs := [], [];
    if w.exc.Some? && env.catching(w) && w.exc.value.catchable && !w.latch {
      var asked := ErrorRequest(env, Noted(w.(latch := true), Caught));
      cs, rs := [Caught], [w.req];
      if env.setParam(asked) && env.view(Undispatched(asked)) {
        var r := Undispatched(asked);
        var (ok, h) := HandleCall(env, r);
        HandleCallSaw(env, r);
        HandledKeeps(env, Noted(r, Handle), env.more(Noted(r, Handle)));
        SawOn(w, r, h, cs, rs, [Handle], [r.req]);
        cs, rs := [Caught] + [Handle], [w.req] + [r.req];
        if !ok && h.exc.Some? && h.exc.value.noController {
          var again := WithNames(h, h.req.names.(m := Some(env.defaults.m))).(exc := None);
          HandleCallSaw(env, again);
          HandledKeeps(env, Noted(again, Handle), env.more(Noted(again, Handle)));
          SawOn(w, again, HandleCall(env, again).1, cs, rs, [Handle], [again.req]);
          cs, rs := cs + [Handle], rs + [again.req];
        }
      }
    }
  }

  // ---------------------------------------------------------------- one step

  /** A hook sees the request as it is; behind it comes the error path or nothing. */
  lemma HookSaw(env: Env, w: World, hook: Hook) returns (cs: seq<Call>, rs: seq<Request>)
    ensures var s := HookStep(env, w, hook);
      && Saw(w, s.w, [Plugin(hook)] + cs, [w.req] + rs)
      && (cs != [] ==> cs[0] == Caught) && (s.Go? ==> cs == [] && s.w == Run(env, w, hook) && s.w.exc.None?)
  {
    var v := Run(env, w, hook);
    cs, rs := ErrorPath(env, v);
    if HookStep(env, w, hook).Go? {
      cs, rs := [], [];
      assert [Plugin(hook)] + [] == [Plugin(hook)] && [w.req] + [] == [w.req];
    } else {
      SawOn(w, v, Checked(env, v), [Plugin(hook)], [w.req], cs, rs);
    }
  }

  /** Behind the router the names are fixed before anything sees them. */
  lemma RouterShutdownSees(env: Env, w: World)
    requires !w.req.routed && HookStep(env, w, RouterStartup).Go? && env.router(HookStep(env, w, RouterStartup).w).0
    ensures var left, v := env.router(HookStep(env, w, RouterStartup).w).1.req, RouteStep(env, w).w;
      && |v.trace| >= |w.trace| + 2 && |v.seen| >= |w.seen| + 2
      && v.trace[|w.trace| + 1] == Plugin(RouterShutdown)
      && v.seen[|w.seen| + 1] == left.(names := N.Fixed(env.defaults, left.names))
  {
    var started := HookStep(env, w, RouterStartup);
    var cs, rs := HookSaw(env, w, RouterStartup);
    var v := Affected(started.w, env.router(started.w).1);
    var f := FixDefault(env, v);
    var ds, qs := HookSaw(env, f, RouterShutdown);
    SawOn(w, f, HookStep(env, f, RouterShutdown).w, [Plugin(RouterStartup)], [w.req], [Plugin(RouterShutdown)] + ds, [f.req] + qs);
  }

  /** A request that was routed before only gets its names fixed. */
  lemma RoutedOnlyFixed(env: Env, w: World)
    requires w.req.routed
    ensures RouteStep(env, w) == Go(w.(req := w.req.(names := N.Fixed(env.defaults, w.req.names))))
  {
  }

  /** Behind every handling the names are fixed before the hook sees them. */
  lemma PostDispatchSees(env: Env, w: World)
    requires HookStep(env, w, PreDispatch).Go? && HandleCall(env, HookStep(env, w, PreDispatch).w).0
    ensures var left, v := HandleCall(env, HookStep(env, w, PreDispatch).w).1.req, Round(env, w).w;
      && |v.trace| >= |w.trace| + 3 && |v.seen| >= |w.seen| + 3
      && v.trace[|w.trace|..|w.trace| + 3] == ROUND
      && v.seen[|w.seen| + 2] == left.(names := N.Fixed(env.defaults, left.names))
  {
    var pre := HookStep(env, w, PreDispatch);
    var cs, rs := HookSaw(env, w, PreDispatch);
    var h := HandleCall(env, pre.w).1;
    HandleCallSaw(env, pre.w);
    var f := FixDefault(env, h);
    var ds, qs := HookSaw(env, f, PostDispatch);
    SawOn(w, pre.w, f, [Plugin(PreDispatch)], [w.req], [Handle], [pre.w.req]);
    SawOn(w, f, HookStep(env, f, PostDispatch).w, [Plugin(PreDispatch)] + [Handle], [w.req] + [pre.w.req],
          [Plugin(PostDispatch)] + ds, [f.req] + qs);
  }

  // ---------------------------------------------------------------- no handling without names

  // Plugins leave the names of the request alone.
  ghost predicate NamesAlone(env: Env) {
    forall hook, w :: env.plugin(hook, w).req.names == w.req.names
  }

  predicate Full(n: N.Names) { !N.Missing(n.m) && !N.Missing(n.c) && !N.Missing(n.a) }

  predicate DefaultsThere(env: Env) { env.defaults.m != "" && env.defaults.c != "" && env.defaults.a != "" }

  lemma FixedIsFull(env: Env, w: World)
    requires DefaultsThere(env)
    ensures Full(FixDefault(env, w).req.names)
  {
    N.NoNameIsEmpty(env.defaults, w.req.names);
  }

  // Up to the error path, every call behind the routing sees all three names.
  ghost predicate NamesThere(cs: seq<Call>, rs: seq<Request>) {
    |cs| == |rs| && forall k :: 0 <= k < |cs| && Caught !in cs[..k + 1] && cs[k] != Plugin(RouterStartup) ==> Full(rs[k].names)
  }

  lemma NamesThereOn(cs: seq<Call>, rs: seq<Request>, ds: seq<Call>, qs: seq<Request>)
    requires NamesThere(cs, rs) && NamesThere(ds, qs)
    ensures NamesThere(cs + ds, rs + qs)
  {
    forall k | 0 <= k < |cs + ds| && Caught !in (cs + ds)[..k + 1] && (cs + ds)[k] != Plugin(RouterStartup)
      ensures Full((rs + qs)[k].names)
    {
      if k < |cs| {
        assert cs[..k + 1] == (cs + ds)[..k + 1];
      } else {
        assert (cs + ds)[..k + 1] == cs + ds[..k - |cs| + 1];
      }
    }
  }

  lemma NamesThereBehind(cs: seq<Call>, rs: seq<Request>)
    requires |cs| == |rs| && (cs != [] ==> cs[0] == Caught)
    ensures NamesThere(cs, rs)
  {
    if cs != [] { FirstIsIn(cs); }
  }

  lemma FirstIsIn(cs: seq<Call>)
    requires cs != []
    ensures forall n :: 0 < n <= |cs| ==> cs[0] in cs[..n]
  {
    forall n | 0 < n <= |cs| ensures cs[0] in cs[..n] { assert cs[..n][0] == cs[0]; }
  }

  lemma HookNames(env: Env, w: World, hook: Hook) returns (cs: seq<Call>, rs: seq<Request>)
    requires NamesAlone(env) && (hook == RouterStartup || Full(w.req.names))
    ensures var s := HookStep(env, w, hook);
      Saw(w, s.w, cs, rs) && NamesThere(cs, rs) && (s.Go? ==> s.w.req.names == w.req.names)
  {
    var ds, qs := HookSaw(env, w, hook);
    NamesThereBehind(ds, qs);
    NamesThereOn([Plugin(hook)], [w.req], ds, qs);
    cs, rs := [Plugin(hook)] + ds, [w.req] + qs;
  }

  lemma RouteNames(env: Env, w: World) returns (cs: seq<Call>, rs: seq<Request>)
    requires NamesAlone(env) && DefaultsThere(env)
    ensures var s := RouteStep(env, w); Saw(w, s.w, cs, rs) && NamesThere(cs, rs) && (s.Go? ==> Full(s.w.req.names))
  {
    if w.req.routed {
      FixedIsFull(env, w);
      SawNothing(w, RouteStep(env, w).w);
      cs, rs := [], [];
    } else {
      var started := HookStep(env, w, RouterStartup);
      cs, rs := HookNames(env, w, RouterStartup);
      if started.Go? {
        var (ok, e) := env.router(started.w);
        var v := Affected(started.w, e);
        if !ok {
          var ds, qs := ErrorPath(env, Raised(v, env.routeError(v)));
          SawOn(w, Raised(v, env.routeError(v)), RouteStep(env, w).w, cs, rs, ds, qs);
          NamesThereBehind(ds, qs);
          NamesThereOn(cs, rs, ds, qs);
          cs, rs := cs + ds, rs + qs;
        } else {
          var f := FixDefault(env, v);
          FixedIsFull(env, v);
          var ds, qs := HookNames(env, f, RouterShutdown);
          SawOn(w, f, HookStep(env, f, RouterShutdown).w, cs, rs, ds, qs);
          NamesThereOn(cs, rs, ds, qs);
          cs, rs := cs + ds, rs + qs;
        }
      }
    }
  }

  lemma RoundNames(env: Env, w: World) returns (cs: seq<Call>, rs: seq<Request>)
    requires NamesAlone(env) && DefaultsThere(env) && Full(w.req.names)
    ensures var s := Round(env, w); Saw(w, s.w, cs, rs) && NamesThere(cs, rs) && (s.Go? ==> Full(s.w.req.names))
  {
    var pre := HookStep(env, w, PreDispatch);
    cs, rs := HookNames(env, w, PreDispatch);
    if pre.Go? {
      var (ok, h) := HandleCall(env, pre.w);
      HandleCallSaw(env, pre.w);
      SawOn(w, pre.w, h, cs, rs, [Handle], [pre.w.req]);
      NamesThereOn(cs, rs, [Handle], [pre.w.req]);
      cs, rs := cs + [Handle], rs + [pre.w.req];
      if !ok {
        var ds, qs := ErrorPath(env, h);
        SawOn(w, h, Checked(env, h), cs, rs, ds, qs);
        NamesThereBehind(ds, qs);
        NamesThereOn(cs, rs, ds, qs);
        cs, rs := cs + ds, rs + qs;
      } else {
        var f := FixDefault(env, h);
        FixedIsFull(env, h);
        var ds, qs := HookNames(env, f, PostDispatch);
        SawOn(w, f, HookStep(env, f, PostDispatch).w, cs, rs, ds, qs);
        NamesThereOn(cs, rs, ds, qs);
        cs, rs := cs + ds, rs + qs;
      }
    }
  }

  lemma {:induction false} LoopNames(env: Env, w: World, nesting: nat) returns (cs: seq<Call>, rs: seq<Request>)
    requires nesting < UINT_RANGE && NamesAlone(env) && DefaultsThere(env) && Full(w.req.names)
    ensures var s := Loop(env, w, nesting).0; Saw(w, s.w, cs, rs) && NamesThere(cs, rs) && (s.Go? ==> Full(s.w.req.names))
    decreases if nesting == 0 then UINT_RANGE else nesting
  {
    var r := Round(env, w);
    var left := Decremented(nesting);
    cs, rs := RoundNames(env, w);
    if !(r.Stop? || left == 0 || r.w.req.dispatched) {
      var ds, qs := LoopNames(env, r.w, left);
      SawOn(w, r.w, Loop(env, r.w, left).0.w, cs, rs, ds, qs);
      NamesThereOn(cs, rs, ds, qs);
      cs, rs := cs + ds, rs + qs;
    }
  }

  lemma LoopedNames(env: Env, w: World, limit: nat) returns (cs: seq<Call>, rs: seq<Request>)
    requires limit < UINT_RANGE && NamesAlone(env) && DefaultsThere(env) && Full(w.req.names)
    ensures Saw(w, Looped(env, w, limit).1, cs, rs) && NamesThere(cs, rs)
  {
    var (looped, left) := Loop(env, w, limit);
    cs, rs := LoopNames(env, w, limit);
    if looped.Go? {
      var shut := HookStep(env, looped.w, LoopShutdown);
      var ds, qs := HookNames(env, looped.w, LoopShutdown);
      SawOn(w, looped.w, shut.w, cs, rs, ds, qs);
      NamesThereOn(cs, rs, ds, qs);
      cs, rs := cs + ds, rs + qs;
      if shut.Go? && left == 0 && !shut.w.req.dispatched {
        var raised := Raised(shut.w, env.limitError(shut.w));
        ds, qs := ErrorPath(env, raised);
        SawOn(w, raised, Checked(env, raised), cs, rs, ds, qs);
        NamesThereBehind(ds, qs);
        NamesThereOn(cs, rs, ds, qs);
        cs, rs := cs + ds, rs + qs;
      }
    }
  }

  /**
  With non-empty defaults and plugins that leave the names alone, whatever routers, controllers and
  actions do to them: from the end of routing to the error path no hook and no handling of a dispatch
  ever sees a request without a module, a controller or an action.
  */
  lemma NoHandlingWithoutNames(env: Env, w: World, limit: nat) returns (cs: seq<Call>, rs: seq<Request>)
    requires limit < UINT_RANGE && NamesAlone(env) && DefaultsThere(env)
    ensures Saw(w, Dispatched(env, w, limit).1, cs, rs) && NamesThere(cs, rs)
  {
    var routed := RouteStep(env, w);
    cs, rs := RouteNames(env, w);
    if routed.Go? {
      var started := HookStep(env, routed.w, LoopStartup);
      var ds, qs := HookNames(env, routed.w, LoopStartup);
      SawOn(w, routed.w, started.w, cs, rs, ds, qs);
      NamesThereOn(cs, rs, ds, qs);
      cs, rs := cs + ds, rs + qs;
      if started.Go? && env.view(started.w) {
        ds, qs := LoopedNames(env, started.w, limit);
        SawOn(w, started.w, Looped(env, started.w, limit).1, cs, rs, ds, qs);
        NamesThereOn(cs, rs, ds, qs);
        cs, rs := cs + ds, rs + qs;
      }
    }
  }

  // ---------------------------------------------------------------- rounds and actions

  /** A further round is only made for a request that was forwarded: its first hook sees it undispatched. */
  lemma {:induction false} RoundsForward(env: Env, w: World, nesting: nat) returns (cs: seq<Call>, rs: seq<Request>)
    requires nesting < UINT_RANGE
    ensures Saw(w, Loop(env, w, nesting).0.w, cs, rs)
    ensures forall k :: 0 < k < |cs| && cs[k] == Plugin(PreDispatch) ==> !rs[k].dispatched
    ensures cs != [] && rs[0] == w.req
    decreases if nesting == 0 then UINT_RANGE else nesting
  {
    var r := Round(env, w);
    var left := Decremented(nesting);
    cs, rs := RoundSaw(env, w);
    if !(r.Stop? || left == 0 || r.w.req.dispatched) {
      var ds, qs := RoundsForward(env, r.w, left);
      SawOn(w, r.w, Loop(env, r.w, left).0.w, cs, rs, ds, qs);
      cs, rs := cs + ds, rs + qs;
    }
  }

  lemma RoundSaw(env: Env, w: World) returns (cs: seq<Call>, rs: seq<Request>)
    ensures Saw(w, Round(env, w).w, cs, rs) && cs != [] && cs[0] == Plugin(PreDispatch) && rs[0] == w.req
    ensures forall k :: 0 < k < |cs| ==> cs[k] != Plugin(PreDispatch)
  {
    var pre := HookStep(env, w, PreDispatch);
    var ds, qs := HookSaw(env, w, PreDispatch);
    ErrorHasNoHooks(env, Run(env, w, PreDispatch), w, pre.w, PreDispatch, ds, qs);
    cs, rs := [Plugin(PreDispatch)] + ds, [w.req] + qs;
    if pre.Go? {
      var (ok, h) := HandleCall(env, pre.w);
      HandleCallSaw(env, pre.w);
      SawOn(w, pre.w, h, cs, rs, [Handle], [pre.w.req]);
      cs, rs := cs + [Handle], rs + [pre.w.req];
      if !ok {
        ds, qs := ErrorPath(env, h);
        SawOn(w, h, Checked(env, h), cs, rs, ds, qs);
      } else {
        var f := FixDefault(env, h);
        var es, ps := HookSaw(env, f, PostDispatch);
        ErrorHasNoHooks(env, Run(env, f, PostDispatch), f, HookStep(env, f, PostDispatch).w, PostDispatch, es, ps);
        ds, qs := [Plugin(PostDispatch)] + es, [f.req] + ps;
        SawOn(w, f, HookStep(env, f, PostDispatch).w, cs, rs, ds, qs);
      }
      cs, rs := cs + ds, rs + qs;
    }
  }

  lemma ErrorHasNoHooks(env: Env, v: World, w: World, u: World, hook: Hook, cs: seq<Call>, rs: seq<Request>)
    requires v == Run(env, w, hook) && u == HookStep(env, w, hook).w && Saw(w, u, [Plugin(hook)] + cs, [w.req] + rs)
    ensures forall k :: 0 <= k < |cs| ==> cs[k] == Caught || cs[k] == Handle
  {
    var ds, qs := ErrorPath(env, v);
    SawOn(w, v, Checked(env, v), [Plugin(hook)], [w.req], ds, qs);
    assert HookStep(env, w, hook).Go? ==> cs == [];
    if HookStep(env, w, hook).Stop? {
      assert w.trace + ([Plugin(hook)] + cs) == w.trace + ([Plugin(hook)] + ds);
      SameTail(w.trace, [Plugin(hook)] + cs, [Plugin(hook)] + ds);
      SameTail([Plugin(hook)], cs, ds);
    }
  }

  lemma SameTail(front: seq<Call>, x: seq<Call>, y: seq<Call>)
    requires front + x == front + y
    ensures x == y
  {
    assert x == (front + x)[|front|..] && y == (front + y)[|front|..];
  }

  /**
  What an action answers: without a value the handling fails, false succeeds and nothing is rendered,
  and anything else succeeds unless rendering is on and does not answer with anything.
  */
  lemma ActionDecides(env: Env, w: World)
    ensures var (found, e) := env.findAction(w); var looked := Affected(w, e); var (ok, v) := Acted(env, w);
      && (!found ==> !ok && v == looked)
      && (found ==>
            var (result, f) := env.action(looked); var acted := Affected(looked, f);
            && (result == NoValue ==> !ok && v == acted)
            && (result == False ==> ok && v == acted)
            && (result == Other && !env.rendering(acted) ==> ok && v == acted)
            && (result == Other && env.rendering(acted) ==>
                  v == Affected(acted, env.render(acted).1) && (ok <==> env.render(acted).0 == Other)))
  {
  }

  // The request names a registered module and a controller, and the application's directory is set.
  predicate Ready(env: Env, n: N.Names) {
    env.hasDirectory && n.m.Some? && n.m.value != "" && env.isModule(n.m.value) && n.c.Some? && n.c.value != ""
  }

  /**
  One handling: it can only succeed with a directory, a registered module, a controller that is found,
  and an init that raises nothing.  What stops it in front of init changes nothing but the exception in
  flight; behind init a forward is handled in its place, and anything else runs the action.
  */
  lemma HandlingDecides(env: Env, w: World, fuel: nat)
    ensures var v := w.(req := w.req.(dispatched := true)); var (ok, r) := Handled(env, w, fuel);
      var inited := Affected(v, Init(env, v, fuel));
      && (ok ==> Ready(env, w.req.names) && env.controller(v) == Class && inited.exc == None)
      && (!Ready(env, w.req.names) ==> r == v.(exc := if env.error(v) == None then w.exc else env.error(v)))
      && (forall e :: Ready(env, w.req.names) && env.controller(v) == NoClass(e) ==> r == v.(exc := if e == None then w.exc else e))
      && (Ready(env, w.req.names) && env.controller(v) == Class ==>
            && (inited.exc.Some? ==> r == inited)
            && (inited.exc.None? && inited.req.dispatched ==> (ok, r) == Acted(env, inited))
            && (inited.exc.None? && !inited.req.dispatched ==> fuel > 0 && (ok, r) == Handled(env, inited, fuel - 1)))
  {
  }

  // ---------------------------------------------------------------- a run that nothing disturbs

  // Everything is found, nothing changes the request or raises an exception, and the router leaves these names.
  ghost predicate Quiet(env: Env, n: N.Names) {
    && (forall hook, w :: env.plugin(hook, w) == Effect(w.req, w.exc))
    && (forall w :: env.router(w) == (true, Effect(w.req.(names := n), w.exc)))
    && (forall w :: env.view(w)) && env.hasDirectory && env.isModule(N.Fixed(env.defaults, n).m.value)
    && (forall w :: env.controller(w) == Class && env.init(w) == Effect(w.req, w.exc))
    && (forall w :: env.findAction(w) == (true, Effect(w.req, w.exc)))
    && (forall w :: env.action(w).0 != NoValue && env.action(w).1 == Effect(w.req, w.exc))
    && (forall w :: env.render(w) == (Other, Effect(w.req, w.exc)))
  }

  lemma QuietHook(env: Env, n: N.Names, w: World, hook: Hook)
    requires Quiet(env, n) && w.exc.None?
    ensures HookStep(env, w, hook) == Go(Noted(w, Plugin(hook)))
  {
  }

  lemma QuietHandling(env: Env, n: N.Names, w: World)
    requires Quiet(env, n) && w.exc.None? && DefaultsThere(env) && w.req.names == N.Fixed(env.defaults, n)
    ensures HandleCall(env, w) == (true, Noted(w, Handle).(req := w.req.(dispatched := true)))
  {
    N.NoNameIsEmpty(env.defaults, n);
    var noted := Noted(w, Handle);
    var v := noted.(req := w.req.(dispatched := true));
    assert Affected(v, Init(env, v, env.more(noted))) == v;
  }

  /**
  A run that nothing disturbs: one round, a response, and the names that the router left, fixed in front
  of the handling and once more behind it.
  */
  lemma UndisturbedRun(env: Env, n: N.Names, w: World, limit: nat)
    requires limit < UINT_RANGE && DefaultsThere(env) && Quiet(env, n) && w.exc.None? && !w.req.routed
    ensures var fixed := w.req.(names := N.Fixed(env.defaults, n)); var routed := fixed.(routed := true);
      var twice := routed.(dispatched := true, names := N.Fixed(env.defaults, fixed.names));
      Dispatched(env, w, limit) ==
      (Response,
       w.(req := twice,
          trace := w.trace + [Plugin(RouterStartup), Plugin(RouterShutdown), Plugin(LoopStartup), Plugin(PreDispatch),
                              Handle, Plugin(PostDispatch), Plugin(LoopShutdown)],
          seen := w.seen + [w.req, fixed, routed, routed, routed, twice, twice]))
  {
    var fixed := w.req.(names := N.Fixed(env.defaults, n));
    var routed := fixed.(routed := true);
    var twice := routed.(dispatched := true, names := N.Fixed(env.defaults, fixed.names));
    QuietRoute(env, n, w);
    QuietHook(env, n, RouteStep(env, w).w, LoopStartup);
    QuietLooped(env, n, Noted(RouteStep(env, w).w, Plugin(LoopStartup)), limit);
    Sevens(w.trace, Plugin(RouterStartup), Plugin(RouterShutdown), Plugin(LoopStartup), Plugin(PreDispatch),
           Handle, Plugin(PostDispatch), Plugin(LoopShutdown));
    Sevens(w.seen, w.req, fixed, routed, routed, routed, twice, twice);
    hide Looped, HookStep, RouteStep;
  }

  lemma Sevens<T>(s: seq<T>, a: T, b: T, c: T, d: T, e: T, f: T, g: T)
    ensures s + [a, b] + [c] + [d, e, f, g] == s + [a, b, c, d, e, f, g]
  {
  }

  lemma QuietRoute(env: Env, n: N.Names, w: World)
    requires Quiet(env, n) && w.exc.None? && !w.req.routed
    ensures var fixed := w.req.(names := N.Fixed(env.defaults, n));
      RouteStep(env, w) == Go(w.(req := fixed.(routed := true),
                                 trace := w.trace + [Plugin(RouterStartup), Plugin(RouterShutdown)], seen := w.seen + [w.req, fixed]))
  {
    QuietHook(env, n, w, RouterStartup);
    var started := Noted(w, Plugin(RouterStartup));
    var f := FixDefault(env, Affected(started, env.router(started).1));
    QuietHook(env, n, f, RouterShutdown);
    assert w.trace + [Plugin(RouterStartup)] + [Plugin(RouterShutdown)] == w.trace + [Plugin(RouterStartup), Plugin(RouterShutdown)];
    assert w.seen + [w.req] + [f.req] == w.seen + [w.req, f.req];
  }

  lemma QuietLooped(env: Env, n: N.Names, w: World, limit: nat)
    requires Quiet(env, n) && w.exc.None? && DefaultsThere(env) && w.req.names == N.Fixed(env.defaults, n) && limit < UINT_RANGE
    ensures var twice := w.req.(dispatched := true, names := N.Fixed(env.defaults, w.req.names));
      Looped(env, w, limit) ==
      (Response, w.(req := twice,
                    trace := w.trace + [Plugin(PreDispatch), Handle, Plugin(PostDispatch), Plugin(LoopShutdown)],
                    seen := w.seen + [w.req, w.req, twice, twice]))
  {
    QuietRound(env, n, w);
    var v := Round(env, w).w;
    hide Round;
    assert Loop(env, w, limit) == (Go(v), Decremented(limit));
    QuietHook(env, n, v, LoopShutdown);
    assert w.trace + ROUND + [Plugin(LoopShutdown)] == w.trace + [Plugin(PreDispatch), Handle, Plugin(PostDispatch), Plugin(LoopShutdown)];
    assert w.seen + [w.req, w.req, v.req] + [v.req] == w.seen + [w.req, w.req, v.req, v.req];
  }

  lemma QuietRound(env: Env, n: N.Names, w: World)
    requires Quiet(env, n) && w.exc.None? && DefaultsThere(env) && w.req.names == N.Fixed(env.defaults, n)
    ensures var twice := w.req.(dispatched := true, names := N.Fixed(env.defaults, w.req.names));
      Round(env, w) == Go(w.(req := twice, trace := w.trace + ROUND, seen := w.seen + [w.req, w.req, twice]))
  {
    QuietHook(env, n, w, PreDispatch);
    var pre := Noted(w, Plugin(PreDispatch));
    QuietHandling(env, n, pre);
    var f := FixDefault(env, HandleCall(env, pre).1);
    QuietHook(env, n, f, PostDispatch);
    assert w.trace + [Plugin(PreDispatch)] + [Handle] + [Plugin(PostDispatch)] == w.trace + ROUND;
    assert w.seen + [w.req] + [w.req] + [f.req] == w.seen + [w.req, w.req, f.req];
  }
}

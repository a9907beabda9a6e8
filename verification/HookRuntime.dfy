/**
 The dispatcher as it runs: thread state updated in place, clean-up on every exit,
 proved step for step against `HookDispatch`.
 */
module HookRuntime {
  import opened Precedence
  import opened HookDispatch

  class Runtime {
    var modes: seq<Mode>
    var active: set<Key>
    var skipFunction: bool
    var skipSubclass: bool
    var switch: Switch
    ghost var log: seq<Event>

    constructor ()
      ensures Snapshot() == State([], {}, false, false, FunctionEnabled, [])
    {
      modes, active, skipFunction, skipSubclass, switch, log := [], {}, false, false, FunctionEnabled, [];
    }

    ghost function Snapshot(): (st: State)
      reads this
    {
      State(modes, active, skipFunction, skipSubclass, switch, log)
    }

    /** The native exchange: the flag's old value, with a new one stored. */
    method ExchangeFunctionSkip(value: bool) returns (was: bool)
      modifies this`skipFunction
      ensures was == old(skipFunction) && skipFunction == value
    {
      was := skipFunction;
      skipFunction := value;
    }

    method ExchangeSubclassSkip(value: bool) returns (was: bool)
      modifies this`skipSubclass
      ensures was == old(skipSubclass) && skipSubclass == value
    {
      was := skipSubclass;
      skipSubclass := value;
    }

    method PushMode(mode: Mode)
      modifies this`modes
      ensures modes == old(modes) + [mode]
    {
      modes := modes + [mode];
    }

    method PopMode() returns (mode: Mode)
      requires |modes| > 0
      modifies this`modes
      ensures old(modes) == modes + [mode] && modes == old(modes)[..|old(modes)| - 1]
    {
      mode := modes[|modes| - 1];
      modes := modes[..|modes| - 1];
    }

    method RunBodyOf(env: Env, api: Api) returns (o: Outcome)
      modifies this
      ensures (o, Snapshot()) == RunBody(env, old(Snapshot()), api)
    {
      var b := env.body(api);
      log := log + [Body(api)];
      skipFunction := skipFunction && !b.takesFunctionSkip;
      skipSubclass := skipSubclass && !b.takesSubclassSkip;
      o := b.outcome;
    }

    method HasFunction(env: Env, args: seq<Value>) returns (must: bool)
      modifies this`skipFunction
      ensures (must, Snapshot()) == MustDispatch(env, old(Snapshot()), args)
    {
      var skipped := ExchangeFunctionSkip(false);
      var overloaded := if skipped then [] else Overloaded(env, switch, args);
      must := switch != AllDisabled && (overloaded != [] || |modes| > 0);
    }

    method CallApi(env: Env, api: Api, args: seq<Value>) returns (o: Outcome)
      requires ClosedEnv(env) && KnownCall(env, api, args)
      modifies this
      ensures (o, Snapshot()) == CallFunction(env, old(Snapshot()), api, args)
      decreases Unused(env, Snapshot()), |modes|, 4
    {
      var must := false;
      if env.wrapped(api) { must := HasFunction(env, args); }
      if must {
        o := HandleFunction(env, api, args);
      } else {
        o := RunBodyOf(env, api);
      }
    }

    method HandleFunction(env: Env, api: Api, args: seq<Value>) returns (o: Outcome)
      requires ClosedEnv(env) && KnownCall(env, api, args)
      modifies this
      ensures (o, Snapshot()) == Handle(env, old(Snapshot()), api, args)
      decreases Unused(env, Snapshot()), |modes|, if skipFunction || switch == AllDisabled then 5 else 3
    {
      var skipped := ExchangeFunctionSkip(false);
      if skipped || switch == AllDisabled {
        o := CallApi(env, api, args);
        return;
      }
      var overloaded := Overloaded(env, switch, args);
      OverloadedKnown(env, switch, args);
      if |modes| > 0 && env.modeHook(modes[|modes| - 1]) {
        o := ConsultMode(env, api);
        if o != NotImplemented {
          return;
        }
      }
      o := ConsultTypes(env, api, overloaded);
    }

    /** The innermost mode leaves the stack while its hook runs and returns to it after. */
    method ConsultMode(env: Env, api: Api) returns (o: Outcome)
      requires ClosedEnv(env) && api in env.apis && |modes| > 0
      modifies this
      ensures (o, Snapshot()) == RunMode(env, old(Snapshot()), api)
      decreases Unused(env, Snapshot()), |modes|, 2
    {
      var mode := PopMode();
      log := log + [ModeHook(mode, api)];
      o := RunHook(env, env.modeProg(mode, api));
      PushMode(mode);
    }

    method ConsultTypes(env: Env, api: Api, overloaded: seq<Obj>) returns (o: Outcome)
      requires ClosedEnv(env) && api in env.apis
      requires forall x :: x in overloaded ==> x.typ in env.types
      modifies this
      ensures (o, Snapshot()) == TryTypes(env, old(Snapshot()), api, overloaded, 0)
      decreases Unused(env, Snapshot()), |modes|, 1
    {
      ghost var goal := TryTypes(env, Snapshot(), api, overloaded, 0);
      var i := 0;
      while i < |overloaded|
        invariant 0 <= i <= |overloaded|
        invariant modes == old(modes) && active == old(active)
        invariant TryTypes(env, Snapshot(), api, overloaded, i) == goal
      {
        var t := overloaded[i].typ;
        i := i + 1;
        if !HasHook(env, switch, t) {
          continue;
        }
        if (api, t) in active {
          return Raised(RecursiveDispatch);
        }
        o := ConsultType(env, api, t);
        if o != NotImplemented {
          return;
        }
      }
      o := Raised(NoImplementation);
    }

    method ConsultType(env: Env, api: Api, t: TypeId) returns (o: Outcome)
      requires ClosedEnv(env) && api in env.apis && t in env.types && (api, t) !in active
      modifies this
      ensures (o, Snapshot()) == RunType(env, old(Snapshot()), api, t)
      decreases Unused(env, Snapshot()), |modes|, 0
    {
      ghost var inner := EnterType(Snapshot(), api, t);
      EnterShrinks(env, Snapshot(), api, t);
      active := active + {(api, t)};
      log := log + [TypeHook(t, api)];
      assert Snapshot() == inner;
      o := RunHook(env, env.typeProg(t, api));
      active := active - {(api, t)};
    }

    method RedispatchFunction(env: Env, target: Target, api: Api, args: seq<Value>) returns (o: Outcome)
      requires ClosedEnv(env) && KnownCall(env, api, args)
      modifies this
      ensures (o, Snapshot()) == RedispatchCall(env, old(Snapshot()), target, api, args)
      decreases Unused(env, Snapshot()), |modes|, 6
    {
      if skipFunction {
        return Raised(DoubleSkip);
      }
      var clearsSubclass := target.ByName? || target.layer == 3;
      if clearsSubclass && skipSubclass {
        return Raised(DoubleSkip);
      }
      var _ := ExchangeFunctionSkip(true);
      if clearsSubclass {
        var _ := ExchangeSubclassSkip(true);
      }
      o := CallApi(env, api, args);
      var left := LeaveTarget(clearsSubclass);
      if !o.Raised? && left {
        o := Raised(SkipNotConsumed);
      }
    }

    /** The final exchange of the flags that were set, and whether any still stood. */
    method LeaveTarget(clearsSubclass: bool) returns (left: bool)
      modifies this`skipFunction, this`skipSubclass
      ensures left == (old(skipFunction) || (clearsSubclass && old(skipSubclass)))
      ensures !skipFunction && skipSubclass == (old(skipSubclass) && !clearsSubclass)
    {
      var functionLeft := ExchangeFunctionSkip(false);
      var subclassLeft := false;
      if clearsSubclass {
        subclassLeft := ExchangeSubclassSkip(false);
      }
      left := functionLeft || subclassLeft;
    }

    /** A hook's program, executed to its end. */
    method RunHook(env: Env, p: Prog) returns (o: Outcome)
      requires ClosedEnv(env) && ClosedProg(env, p)
      modifies this
      ensures (o, Snapshot()) == Run(env, old(Snapshot()), p)
      decreases Unused(env, Snapshot()), |modes|, 7, p, 1
    {
      if p.Finish? {
        return p.outcome;
      }
      o := RunHookStep(env, p);
      o := RunHook(env, p.next[o]);
    }

    method RunHookStep(env: Env, p: Prog) returns (o: Outcome)
      requires ClosedEnv(env) && ClosedProg(env, p) && !p.Finish?
      modifies this
      ensures (o, Snapshot()) == RunStep(env, old(Snapshot()), p)
      decreases Unused(env, Snapshot()), |modes|, 7, p, 0
    {
      match p
      case Call(api, args, _) =>
        o := CallApi(env, api, args);
      case Redispatch(target, api, args, _) =>
        o := RedispatchFunction(env, target, api, args);
      case Reentrant(body, _) =>
        o := WithReentrantDispatch(env, body);
      case Disabled(body, _) =>
        o := WithDispatchDisabled(env, body);
    }

    method WithReentrantDispatch(env: Env, body: Prog) returns (o: Outcome)
      requires ClosedEnv(env) && ClosedProg(env, body)
      modifies this
      ensures (o, Snapshot()) == RunReentrant(env, old(Snapshot()), body)
      decreases Unused(env, Snapshot()), |modes|, 7, body, 2
    {
      var previous := switch;
      var functionSkip := ExchangeFunctionSkip(false);
      var subclassSkip := ExchangeSubclassSkip(false);
      switch := FunctionEnabled;
      o := RunHook(env, body);
      skipFunction, skipSubclass, switch := functionSkip, subclassSkip, previous;
    }

    method WithDispatchDisabled(env: Env, body: Prog) returns (o: Outcome)
      requires ClosedEnv(env) && ClosedProg(env, body)
      modifies this
      ensures (o, Snapshot()) == RunDisabled(env, old(Snapshot()), body)
      decreases Unused(env, Snapshot()), |modes|, 7, body, 2
    {
      var previous := switch;
      switch := AllDisabled;
      o := RunHook(env, body);
      switch := previous;
    }
  }
}

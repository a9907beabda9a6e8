/**
 Whose answer a dispatch returns: the hooks are asked one after the other, the innermost
 mode before the types in dispatch order, until one of them answers.
 */
module HookAnswers {
  import opened Precedence
  import opened HookDispatch

  datatype Hook = OfMode(mode: Mode) | OfType(typ: TypeId)

  /** The hooks a dispatch has to ask, in order. */
  function Hooks(env: Env, st: State, args: seq<Value>): (r: seq<Hook>) {
    ModeHooks(env, st) + TypeHooks(Types(Overloaded(env, st.switch, args)))
  }

  function ModeHooks(env: Env, st: State): (r: seq<Hook>) {
    if st.modes != [] && env.modeHook(st.modes[|st.modes| - 1]) then [OfMode(st.modes[|st.modes| - 1])] else []
  }

  function TypeHooks(ts: seq<TypeId>): (r: seq<Hook>)
    ensures |r| == |ts| && forall i :: 0 <= i < |ts| ==> r[i] == OfType(ts[i])
  {
    seq(|ts|, i requires 0 <= i < |ts| => OfType(ts[i]))
  }

  /** The hook is a type's, and that type's hook for this function is already in progress. */
  predicate InProgress(st: State, api: Api, h: Hook) {
    h.OfType? && (api, h.typ) in st.active
  }

  function EventOf(h: Hook, api: Api): (e: Event) {
    match h
    case OfMode(m) => ModeHook(m, api)
    case OfType(t) => TypeHook(t, api)
  }

  /** The hook can be asked: a mode is the innermost one, a type is known and not in progress. */
  predicate Askable(env: Env, st: State, api: Api, h: Hook) {
    match h
    case OfMode(m) => st.modes != [] && st.modes[|st.modes| - 1] == m
    case OfType(t) => t in env.types && (api, t) !in st.active
  }

  /** One hook asked: its program run with the mode off the stack, or the type's key in progress. */
  ghost function Ask(env: Env, st: State, api: Api, h: Hook): (r: (Outcome, State))
    requires ClosedEnv(env) && api in env.apis && Askable(env, st, api, h)
  {
    var logged := st.(log := st.log + [EventOf(h, api)]);
    match h
    case OfMode(m) =>
      var r := Run(env, logged.(modes := st.modes[..|st.modes| - 1]), env.modeProg(m, api));
      (r.0, r.1.(modes := st.modes))
    case OfType(t) =>
      var r := Run(env, logged.(active := st.active + {(api, t)}), env.typeProg(t, api));
      (r.0, r.1.(active := st.active))
  }

  lemma AskMode(env: Env, st: State, api: Api, m: Mode)
    requires ClosedEnv(env) && api in env.apis && Askable(env, st, api, OfMode(m))
    ensures Ask(env, st, api, OfMode(m)) == RunMode(env, st, api)
  {
  }

  lemma AskType(env: Env, st: State, api: Api, t: TypeId)
    requires ClosedEnv(env) && api in env.apis && Askable(env, st, api, OfType(t))
    ensures Ask(env, st, api, OfType(t)) == RunType(env, st, api, t)
  {
    assert st.active + {(api, t)} - {(api, t)} == st.active;
  }

  /** A hook asked is logged first, and hands back what every call hands back. */
  lemma AskIsBalanced(env: Env, st: State, api: Api, h: Hook)
    requires ClosedEnv(env) && api in env.apis && Askable(env, st, api, h)
    ensures Balanced(st, Ask(env, st, api, h).1) && st.log + [EventOf(h, api)] <= Ask(env, st, api, h).1.log
  {
    match h
    case OfMode(m) => AskMode(env, st, api, m);
    case OfType(t) => AskType(env, st, api, t);
  }

  /** With subclass hooks disabled only a type's function hook counts, otherwise either of its hooks. */
  lemma HookKinds(env: Env, t: TypeId)
    ensures HasHook(env, SubclassesDisabled, t) <==> env.functionHook(t)
    ensures HasHook(env, FunctionEnabled, t) <==> env.functionHook(t) || env.dispatchHook(t)
  {
  }

  /** The states between the hooks: each hook before the last one asked declines, and hands its
      state to the next. */
  ghost predicate Declined(env: Env, api: Api, hooks: seq<Hook>, states: seq<State>)
    requires ClosedEnv(env) && api in env.apis
  {
    && 0 < |states| <= |hooks| + 1
    && forall i :: 0 <= i < |states| - 1 ==> Declines(env, api, hooks[i], states[i], states[i + 1])
  }

  ghost predicate Declines(env: Env, api: Api, h: Hook, st: State, next: State)
    requires ClosedEnv(env) && api in env.apis
  {
    Askable(env, st, api, h) && Ask(env, st, api, h) == (NotImplemented, next)
  }

  /** How the asking ends in state `st`: no hook is left, the next one is in progress, or it answers. */
  ghost predicate Ends(env: Env, api: Api, left: seq<Hook>, st: State, r: (Outcome, State))
    requires ClosedEnv(env) && api in env.apis
  {
    if left == [] then r == (Raised(NoImplementation), st)
    else if InProgress(st, api, left[0]) then r == (Raised(RecursiveDispatch), st)
    else Askable(env, st, api, left[0]) && r == Ask(env, st, api, left[0]) && r.0 != NotImplemented
  }

  ghost predicate AnswersInOrder(env: Env, api: Api, hooks: seq<Hook>, states: seq<State>, r: (Outcome, State))
    requires ClosedEnv(env) && api in env.apis
  {
    Declined(env, api, hooks, states) && Ends(env, api, hooks[|states| - 1..], states[|states| - 1], r)
  }

  // ----- the dispatcher asks in this order -----

  lemma EndsNow(env: Env, api: Api, hooks: seq<Hook>, st: State, r: (Outcome, State)) returns (states: seq<State>)
    requires ClosedEnv(env) && api in env.apis && Ends(env, api, hooks, st, r)
    ensures states != [] && states[0] == st && AnswersInOrder(env, api, hooks, states, r)
  {
    states := [st];
    assert hooks[0..] == hooks;
  }

  /** A declining hook in front of a trace. */
  lemma DeclinesFirst(env: Env, api: Api, hooks: seq<Hook>, st: State, later: seq<State>, r: (Outcome, State))
    returns (states: seq<State>)
    requires ClosedEnv(env) && api in env.apis && hooks != []
    requires later != [] && AnswersInOrder(env, api, hooks[1..], later, r)
    requires Declines(env, api, hooks[0], st, later[0])
    ensures states != [] && states[0] == st && AnswersInOrder(env, api, hooks, states, r)
  {
    states := [st] + later;
    forall i | 0 <= i < |states| - 1 ensures Declines(env, api, hooks[i], states[i], states[i + 1]) {
      if i > 0 {
        assert Declines(env, api, hooks[1..][i - 1], later[i - 1], later[i]);
      }
    }
    assert hooks[|states| - 1..] == hooks[1..][|later| - 1..];
  }

  lemma {:induction false} TypesAnswer(env: Env, st: State, api: Api, objs: seq<Obj>, i: nat)
    returns (states: seq<State>)
    requires ClosedEnv(env) && api in env.apis && i <= |objs|
    requires forall o :: o in objs ==> o.typ in env.types && HasHook(env, st.switch, o.typ)
    ensures states != [] && states[0] == st
    ensures AnswersInOrder(env, api, TypeHooks(Types(objs[i..])), states, TryTypes(env, st, api, objs, i))
    decreases |objs| - i
  {
    var hooks, r := TypeHooks(Types(objs[i..])), TryTypes(env, st, api, objs, i);
    if i == |objs| || (api, objs[i].typ) in st.active {
      states := EndsNow(env, api, hooks, st, r);
    } else {
      AskType(env, st, api, objs[i].typ);
      AskIsBalanced(env, st, api, OfType(objs[i].typ));
      var a := Ask(env, st, api, OfType(objs[i].typ));
      if a.0 != NotImplemented {
        states := EndsNow(env, api, hooks, st, r);
      } else {
        var later := TypesAnswer(env, a.1, api, objs, i + 1);
        assert hooks[1..] == TypeHooks(Types(objs[i + 1..]));
        states := DeclinesFirst(env, api, hooks, st, later, r);
      }
    }
  }

  lemma {:induction false} CollectHooked(hook: HookTest, sub: SubclassTest, objs: seq<Obj>)
    ensures forall o :: o in Collect(hook, sub, objs) ==> hook(o.typ)
  {
    CollectIsOrder(hook, sub, objs);
    FirstSeenTypes(hook, objs);
  }

  lemma OverloadedHooked(env: Env, switch: Switch, args: seq<Value>)
    ensures forall o :: o in Overloaded(env, switch, args) ==> HasHook(env, switch, o.typ)
  {
    CollectHooked(HookFor(env, switch), env.sub, AllCandidates(args));
  }

  lemma OverloadedReady(env: Env, st: State, args: seq<Value>)
    requires KnownArgs(env, args)
    ensures forall o :: o in Overloaded(env, st.switch, args) ==> o.typ in env.types && HasHook(env, st.switch, o.typ)
  {
    OverloadedKnown(env, st.switch, args);
    OverloadedHooked(env, st.switch, args);
  }

  lemma HandleParts(env: Env, st: State, api: Api, args: seq<Value>, objs: seq<Obj>, a: (Outcome, State))
    requires ClosedEnv(env) && KnownCall(env, api, args) && !st.skipFunction && st.switch != AllDisabled
    requires objs == Overloaded(env, st.switch, args) && a == TryMode(env, st, api)
    requires forall o :: o in objs ==> o.typ in env.types
    ensures Handle(env, st, api, args) == if a.0 != NotImplemented then a else TryTypes(env, a.1, api, objs, 0)
  {
  }

  lemma NoModeAnswers(env: Env, st: State, api: Api, args: seq<Value>, objs: seq<Obj>) returns (states: seq<State>)
    requires ClosedEnv(env) && KnownCall(env, api, args) && !st.skipFunction && st.switch != AllDisabled
    requires objs == Overloaded(env, st.switch, args) && ModeHooks(env, st) == []
    requires forall o :: o in objs ==> o.typ in env.types && HasHook(env, st.switch, o.typ)
    ensures states != [] && states[0] == st
    ensures AnswersInOrder(env, api, TypeHooks(Types(objs)), states, Handle(env, st, api, args))
  {
    HandleParts(env, st, api, args, objs, (NotImplemented, st));
    assert objs[0..] == objs;
    states := TypesAnswer(env, st, api, objs, 0);
  }

  lemma ModeAnswers(env: Env, st: State, api: Api, args: seq<Value>, objs: seq<Obj>, hooks: seq<Hook>, m: Mode)
    returns (states: seq<State>)
    requires ClosedEnv(env) && KnownCall(env, api, args) && !st.skipFunction && st.switch != AllDisabled
    requires objs == Overloaded(env, st.switch, args)
    requires forall o :: o in objs ==> o.typ in env.types && HasHook(env, st.switch, o.typ)
    requires st.modes != [] && m == st.modes[|st.modes| - 1] && env.modeHook(m)
    requires hooks == [OfMode(m)] + TypeHooks(Types(objs))
    ensures states != [] && states[0] == st
    ensures AnswersInOrder(env, api, hooks, states, Handle(env, st, api, args))
  {
    AskMode(env, st, api, m);
    AskIsBalanced(env, st, api, OfMode(m));
    var a := Ask(env, st, api, OfMode(m));
    HandleParts(env, st, api, args, objs, a);
    assert hooks[0] == OfMode(m) && hooks[1..] == TypeHooks(Types(objs)) && objs[0..] == objs;
    if a.0 != NotImplemented {
      states := EndsNow(env, api, hooks, st, a);
    } else {
      var later := TypesAnswer(env, a.1, api, objs, 0);
      states := DeclinesFirst(env, api, hooks, st, later, TryTypes(env, a.1, api, objs, 0));
    }
  }

  /** A dispatch asks the innermost mode's hook and then the hook-bearing types in dispatch order, each
      in the state the one before it left. Its outcome is that of the first hook that does not
      decline; it is NoImplementation when all decline, and RecursiveDispatch when the next type's
      hook is in progress. The log grows by each hook asked, in that order. */
  lemma DispatchAnswers(env: Env, st: State, api: Api, args: seq<Value>) returns (states: seq<State>)
    requires ClosedEnv(env) && KnownCall(env, api, args) && !st.skipFunction && st.switch != AllDisabled
    ensures states != [] && states[0] == st
    ensures AnswersInOrder(env, api, Hooks(env, st, args), states, Handle(env, st, api, args))
  {
    var objs := Overloaded(env, st.switch, args);
    OverloadedReady(env, st, args);
    if ModeHooks(env, st) == [] {
      assert Hooks(env, st, args) == TypeHooks(Types(objs));
      states := NoModeAnswers(env, st, api, args, objs);
    } else {
      states := ModeAnswers(env, st, api, args, objs, Hooks(env, st, args), st.modes[|st.modes| - 1]);
    }
  }

  /** A wrapped call dispatches exactly when dispatch is on and a mode is active or, with no skip
      pending, some object inside its arguments has a hook; otherwise it runs its body. Either
      way a pending skip is consumed. */
  lemma CallDispatchesExactly(env: Env, st: State, api: Api, args: seq<Value>)
    requires ClosedEnv(env) && KnownCall(env, api, args) && env.wrapped(api)
    ensures var st1 := st.(skipFunction := false);
            var dispatches := st.switch != AllDisabled
                              && (st.modes != [] || (!st.skipFunction && HasHookInside(env, st.switch, args)));
            CallFunction(env, st, api, args) ==
              if dispatches then Handle(env, st1, api, args) else RunBody(env, st1, api)
  {
    if st.switch != AllDisabled { SomeHook(env, st.switch, args); }
  }

  ghost predicate HasHookInside(env: Env, switch: Switch, args: seq<Value>) {
    exists o, v :: v in args && OccursIn(o, v) && HasHook(env, switch, o.typ)
  }

  lemma SomeHook(env: Env, switch: Switch, args: seq<Value>)
    requires switch != AllDisabled
    ensures Overloaded(env, switch, args) != [] <==> HasHookInside(env, switch, args)
  {
    var hook, objs := HookFor(env, switch), AllCandidates(args);
    CollectIsOrder(hook, env.sub, objs);
    FirstSeenTypes(hook, objs);
    var r := Overloaded(env, switch, args);
    if r != [] {
      var o := r[0];
      assert o in FirstSeen(hook, objs) && IsFirstOfType(hook, objs, o);
      AllCandidatesExactly(args, o);
    }
    if HasHookInside(env, switch, args) {
      var o, v :| v in args && OccursIn(o, v) && HasHook(env, switch, o.typ);
      AllCandidatesExactly(args, o);
      var i :| 0 <= i < |objs| && objs[i] == o;
      assert Types(objs)[i] == o.typ;
      assert o.typ in Types(FirstSeen(hook, objs));
    }
  }

  /** In a trace the log grows by each hook asked, in the order asked. */
  lemma AnswersAreLogged(env: Env, api: Api, hooks: seq<Hook>, states: seq<State>, r: (Outcome, State))
    requires ClosedEnv(env) && api in env.apis && AnswersInOrder(env, api, hooks, states, r)
    ensures forall i :: 0 <= i < |states| - 1 ==> states[i].log + [EventOf(hooks[i], api)] <= states[i + 1].log
    ensures r.0 != Raised(NoImplementation) && r.0 != Raised(RecursiveDispatch) ==>
              |states| <= |hooks|
              && states[|states| - 1].log + [EventOf(hooks[|states| - 1], api)] <= r.1.log
  {
    var n := |states| - 1;
    forall i | 0 <= i < n ensures states[i].log + [EventOf(hooks[i], api)] <= states[i + 1].log {
      assert Declines(env, api, hooks[i], states[i], states[i + 1]);
      AskIsBalanced(env, states[i], api, hooks[i]);
    }
    if r.0 != Raised(NoImplementation) && r.0 != Raised(RecursiveDispatch) {
      assert hooks[n..][0] == hooks[n];
      AskIsBalanced(env, states[n], api, hooks[n]);
    }
  }

  // ----- the switches around a call -----

  /** A redispatch is refused, with nothing changed, exactly when a flag it would set is pending: by
      name both flags, by callable the subclass flag only on the third layer. */
  lemma GuardsExactly(env: Env, st: State, target: Target, api: Api, args: seq<Value>)
    requires ClosedEnv(env) && KnownCall(env, api, args)
    ensures var pending := st.skipFunction || ((target == ByName || target == Callable(3)) && st.skipSubclass);
            && (pending <==> !MayRedispatch(st, target))
            && (pending ==> RedispatchCall(env, st, target, api, args) == (Raised(DoubleSkip), st))
  {
  }

  ghost function Once(api: Api, args: seq<Value>): (p: Prog) {
    Call(api, args, imap o: Outcome :: Finish(o))
  }

  lemma OnceIsCall(env: Env, st: State, api: Api, args: seq<Value>)
    requires ClosedEnv(env) && KnownCall(env, api, args)
    ensures ClosedProg(env, Once(api, args)) && Run(env, st, Once(api, args)) == CallFunction(env, st, api, args)
  {
    var p := Once(api, args);
    assert forall o: Outcome :: o in p.next && p.next[o] == Finish(o);
    var r := RunStep(env, st, p);
    assert Run(env, r.1, p.next[r.0]) == (r.0, r.1);
  }

  /** Inside the reentrant block a call finds dispatch on and no skip pending; afterwards the switch
      and both skips are as they were. */
  lemma ReentrantBlock(env: Env, st: State, api: Api, args: seq<Value>, inner: State)
    requires ClosedEnv(env) && KnownCall(env, api, args)
    requires inner == st.(switch := FunctionEnabled, skipFunction := false, skipSubclass := false)
    ensures ClosedProg(env, Once(api, args))
    ensures var r, c := RunReentrant(env, st, Once(api, args)), CallFunction(env, inner, api, args);
            && r.0 == c.0 && r.1.log == c.1.log
            && r.1.switch == st.switch && r.1.skipFunction == st.skipFunction && r.1.skipSubclass == st.skipSubclass
  {
    OnceIsCall(env, inner, api, args);
  }

  /** Inside the disabled block a call runs its body and no hook; afterwards the switch is as it was. */
  lemma DisabledBlock(env: Env, st: State, api: Api, args: seq<Value>)
    requires ClosedEnv(env) && KnownCall(env, api, args)
    ensures ClosedProg(env, Once(api, args))
    ensures var r := RunDisabled(env, st, Once(api, args));
            r.0 == env.body(api).outcome && r.1.log == st.log + [Body(api)] && r.1.switch == st.switch
  {
    OnceIsCall(env, st.(switch := AllDisabled), api, args);
  }

  /** With dispatch off the dispatcher runs the body, and with a skip pending it calls the function
      again with the skip consumed. */
  lemma PassedThrough(env: Env, st: State, api: Api, args: seq<Value>)
    requires ClosedEnv(env) && KnownCall(env, api, args)
    ensures st.switch == AllDisabled ==>
              Handle(env, st, api, args) == RunBody(env, st.(skipFunction := false), api)
    ensures st.skipFunction ==>
              Handle(env, st, api, args) == CallFunction(env, st.(skipFunction := false), api, args)
  {
  }
}

/**
 The function-hook protocol as a state machine: a stack of function modes, the set of
 hooks in progress, one-shot skip flags and the native dispatch switch. Hooks are
 terminating programs that may call back into dispatched functions and go on by what
 those calls return or raise.
 */
module HookDispatch {
  import opened Precedence

  type Api = nat
  type Mode = nat
  type Key = (Api, TypeId)

  /** The native dispatch switch. */
  datatype Switch = FunctionEnabled | SubclassesDisabled | AllDisabled

  /** What ran, in order. */
  datatype Event = ModeHook(mode: Mode, api: Api) | TypeHook(typ: TypeId, api: Api) | Body(api: Api)

  datatype Error = HookError(code: nat) | RecursiveDispatch | NoImplementation | DoubleSkip | SkipNotConsumed

  datatype Outcome = Returned(value: int) | NotImplemented | Raised(error: Error)

  datatype State = State(
    modes: seq<Mode>,
    active: set<Key>,
    skipFunction: bool,
    skipSubclass: bool,
    switch: Switch,
    log: seq<Event>)

  /** What a redispatch names: an operation by name, or a callable, together with the layer the
      native code reports at that point. */
  datatype Target = ByName | Callable(layer: int)

  /** A hook: it ends by returning, declining or raising, and before that may call dispatched
      functions, redispatch past the current layer, and run under the context managers that
      switch dispatch on or off. What it does next depends on the outcome of each such step. */
  datatype Prog =
    | Finish(outcome: Outcome)
    | Call(api: Api, args: seq<Value>, next: imap<Outcome, Prog>)
    | Redispatch(target: Target, api: Api, args: seq<Value>, next: imap<Outcome, Prog>)
    | Reentrant(body: Prog, next: imap<Outcome, Prog>)
    | Disabled(body: Prog, next: imap<Outcome, Prog>)

  /** A function's own body: what it does with pending skip flags, and its outcome. */
  datatype NativeBody = NativeBody(takesFunctionSkip: bool, takesSubclassSkip: bool, outcome: Outcome)

  /** Everything dispatch consults and does not change. `apis` and `types` bound what
      hooks may call. */
  datatype Env = Env(
    functionHook: TypeId -> bool,
    dispatchHook: TypeId -> bool,
    sub: SubclassTest,
    modeHook: Mode -> bool,
    modeProg: (Mode, Api) -> Prog,
    typeProg: (TypeId, Api) -> Prog,
    wrapped: Api -> bool,
    body: Api -> NativeBody,
    apis: set<Api>,
    types: set<TypeId>)

  // ----- what hooks may call -----

  predicate KnownArgs(env: Env, args: seq<Value>) {
    forall o :: o in AllCandidates(args) ==> o.typ in env.types
  }

  predicate KnownCall(env: Env, api: Api, args: seq<Value>) {
    api in env.apis && KnownArgs(env, args)
  }

  /** Every outcome has a continuation, and the program keeps to known functions and types. */
  ghost predicate ClosedProg(env: Env, p: Prog)
    decreases p
  {
    match p
    case Finish(_) => true
    case Call(api, args, next) => KnownCall(env, api, args) && forall o :: o in next && ClosedProg(env, next[o])
    case Redispatch(_, api, args, next) =>
      KnownCall(env, api, args) && forall o :: o in next && ClosedProg(env, next[o])
    case Reentrant(body, next) => ClosedProg(env, body) && forall o :: o in next && ClosedProg(env, next[o])
    case Disabled(body, next) => ClosedProg(env, body) && forall o :: o in next && ClosedProg(env, next[o])
  }

  /** Hooks call only the finitely many functions `apis`, on arguments of the finitely
      many types `types`. */
  ghost predicate ClosedEnv(env: Env) {
    && (forall m, a :: a in env.apis ==> ClosedProg(env, env.modeProg(m, a)))
    && (forall t, a :: t in env.types && a in env.apis ==> ClosedProg(env, env.typeProg(t, a)))
  }

  function Keys(env: Env): (r: set<Key>) {
    set a, t | a in env.apis && t in env.types :: (a, t)
  }

  /** How many hooks are not in progress: the measure nested dispatch consumes. */
  function Unused(env: Env, st: State): (n: nat) {
    |Keys(env) - st.active|
  }

  lemma UnusedShrinks(env: Env, st: State, key: Key)
    requires key in Keys(env) && key !in st.active
    ensures Unused(env, st.(active := st.active + {key})) < Unused(env, st)
  {
    var rest := Keys(env) - st.active;
    assert Keys(env) - (st.active + {key}) == rest - {key};
  }

  // ----- hook lookup -----

  predicate HasHook(env: Env, switch: Switch, t: TypeId) {
    env.functionHook(t) || (env.dispatchHook(t) && switch != SubclassesDisabled)
  }

  /** The hook-bearing arguments in dispatch order, none when dispatch is off. */
  function Overloaded(env: Env, switch: Switch, args: seq<Value>): (r: seq<Obj>) {
    if switch == AllDisabled then []
    else Collect(HookFor(env, switch), env.sub, AllCandidates(args))
  }

  function HookFor(env: Env, switch: Switch): (r: HookTest) {
    (t: TypeId) => HasHook(env, switch, t)
  }

  lemma OverloadedKnown(env: Env, switch: Switch, args: seq<Value>)
    requires KnownArgs(env, args)
    ensures forall o :: o in Overloaded(env, switch, args) ==> o.typ in env.types
  {
    CollectKnown(HookFor(env, switch), env.sub, AllCandidates(args), env.types);
  }

  lemma {:induction false} CollectKnown(hook: HookTest, sub: SubclassTest, objs: seq<Obj>, known: set<TypeId>)
    requires forall o :: o in objs ==> o.typ in known
    ensures forall o :: o in Collect(hook, sub, objs) ==> o.typ in known
  {
    if objs != [] {
      var n := |objs| - 1;
      CollectKnown(hook, sub, objs[..n], known);
      var acc := Collect(hook, sub, objs[..n]);
      InsertMembers(acc, Slot(sub, Types(acc), objs[n].typ), objs[n]);
    }
  }

  // ----- redispatch -----

  predicate SetsSubclassSkip(target: Target) {
    target.ByName? || target.layer == 3
  }

  /** The guards: a pending flag that would be set again. */
  predicate MayRedispatch(st: State, target: Target) {
    !st.skipFunction && (SetsSubclassSkip(target) ==> !st.skipSubclass)
  }

  function EnterRedispatch(st: State, target: Target): (r: State) {
    st.(skipFunction := true, skipSubclass := st.skipSubclass || SetsSubclassSkip(target))
  }

  /** The clean-up on every exit, and the error when the target left a flag standing. */
  function LeaveRedispatch(target: Target, o: Outcome, st: State): (r: (Outcome, State)) {
    var clears := SetsSubclassSkip(target);
    var left := st.skipFunction || (clears && st.skipSubclass);
    var st' := st.(skipFunction := false, skipSubclass := st.skipSubclass && !clears);
    (if o.Raised? then o else if left then Raised(SkipNotConsumed) else o, st')
  }

  // ----- the semantics of dispatch -----

  /** An event that may happen below `st`: no hook already in progress is entered again,
      and only modes on the stack are consulted. */
  predicate Allowed(st: State, e: Event) {
    match e
    case TypeHook(t, a) => (a, t) !in st.active
    case ModeHook(m, _) => m in st.modes
    case Body(_) => true
  }

  predicate AllowedFrom(st: State, log: seq<Event>, n: nat) {
    forall i :: n <= i < |log| ==> Allowed(st, log[i])
  }

  /** What every call hands back as it found it, that it leaves no new skip pending, and
      what may have happened meanwhile. */
  predicate Balanced(before: State, after: State) {
    && after.modes == before.modes && after.active == before.active && after.switch == before.switch
    && (after.skipFunction ==> before.skipFunction) && (after.skipSubclass ==> before.skipSubclass)
    && before.log <= after.log && AllowedFrom(before, after.log, |before.log|)
  }

  function RunBody(env: Env, st: State, api: Api): (r: (Outcome, State))
    ensures Balanced(st, r.1)
  {
    var b := env.body(api);
    (b.outcome, st.(skipFunction := st.skipFunction && !b.takesFunctionSkip,
                    skipSubclass := st.skipSubclass && !b.takesSubclassSkip,
                    log := st.log + [Body(api)]))
  }

  /** Whether a wrapped function must dispatch; asking consumes a pending skip. */
  function MustDispatch(env: Env, st: State, args: seq<Value>): (r: (bool, State))
    ensures Balanced(st, r.1) && r.1.log == st.log
    ensures r.0 ==> !r.1.skipFunction && r.1.switch != AllDisabled
  {
    var overloaded := if st.skipFunction then [] else Overloaded(env, st.switch, args);
    var st' := st.(skipFunction := false);
    (st.switch != AllDisabled && (overloaded != [] || |st.modes| > 0), st')
  }

  /** Calling a function: a wrapped one asks whether it must dispatch, a plain one runs its body. */
  ghost function CallFunction(env: Env, st: State, api: Api, args: seq<Value>): (r: (Outcome, State))
    requires ClosedEnv(env) && KnownCall(env, api, args)
    ensures Balanced(st, r.1)
    decreases Unused(env, st), |st.modes|, 4
  {
    if !env.wrapped(api) then RunBody(env, st, api)
    else
      var d := MustDispatch(env, st, args);
      if d.0 then Handle(env, d.1, api, args) else RunBody(env, d.1, api)
  }

  /** The dispatcher: the innermost mode first, then each overloaded type in turn. */
  ghost function Handle(env: Env, st: State, api: Api, args: seq<Value>): (r: (Outcome, State))
    requires ClosedEnv(env) && KnownCall(env, api, args)
    ensures Balanced(st, r.1)
    decreases Unused(env, st), |st.modes|, if st.skipFunction || st.switch == AllDisabled then 5 else 3
  {
    if st.skipFunction || st.switch == AllDisabled then
      CallFunction(env, st.(skipFunction := false), api, args)
    else
      var overloaded := Overloaded(env, st.switch, args);
      OverloadedKnown(env, st.switch, args);
      var r := TryMode(env, st, api);
      if r.0 != NotImplemented then r
      else TryTypes(env, r.1, api, overloaded, 0)
  }

  /** The innermost mode, when there is one and it has a hook. */
  ghost function TryMode(env: Env, st: State, api: Api): (r: (Outcome, State))
    requires ClosedEnv(env) && api in env.apis
    ensures Balanced(st, r.1)
    ensures r == (NotImplemented, st) || exists m :: st.log + [ModeHook(m, api)] <= r.1.log
    decreases Unused(env, st), |st.modes|, 2, 1
  {
    if |st.modes| > 0 && env.modeHook(st.modes[|st.modes| - 1]) then RunMode(env, st, api)
    else (NotImplemented, st)
  }

  /** The innermost mode's hook, run with that mode taken off the stack. */
  ghost function RunMode(env: Env, st: State, api: Api): (r: (Outcome, State))
    requires ClosedEnv(env) && api in env.apis && |st.modes| > 0
    ensures Balanced(st, r.1)
    ensures st.log + [ModeHook(st.modes[|st.modes| - 1], api)] <= r.1.log
    decreases Unused(env, st), |st.modes|, 2, 0
  {
    var n := |st.modes| - 1;
    var mode := st.modes[n];
    var inner := st.(modes := st.modes[..n], log := st.log + [ModeHook(mode, api)]);
    var r := Run(env, inner, env.modeProg(mode, api));
    (r.0, r.1.(modes := r.1.modes + [mode]))
  }

  ghost function TryTypes(env: Env, st: State, api: Api, overloaded: seq<Obj>, i: nat): (r: (Outcome, State))
    requires ClosedEnv(env) && api in env.apis && i <= |overloaded|
    requires forall o :: o in overloaded ==> o.typ in env.types
    ensures Balanced(st, r.1)
    ensures r.1.log == st.log || exists t :: st.log + [TypeHook(t, api)] <= r.1.log
    decreases Unused(env, st), |st.modes|, 1, |overloaded| - i
  {
    if i == |overloaded| then (Raised(NoImplementation), st)
    else
      var t := overloaded[i].typ;
      if !HasHook(env, st.switch, t) then TryTypes(env, st, api, overloaded, i + 1)
      else if (api, t) in st.active then (Raised(RecursiveDispatch), st)
      else
        var r := RunType(env, st, api, t);
        if r.0 != NotImplemented then r
        else TryTypes(env, r.1, api, overloaded, i + 1)
  }

  /** A type's hook begins: its key is in the set of hooks in progress. */
  function EnterType(st: State, api: Api, t: TypeId): (r: State) {
    st.(active := st.active + {(api, t)}, log := st.log + [TypeHook(t, api)])
  }

  lemma EnterShrinks(env: Env, st: State, api: Api, t: TypeId)
    requires api in env.apis && t in env.types && (api, t) !in st.active
    ensures Unused(env, EnterType(st, api, t)) < Unused(env, st)
  {
    UnusedShrinks(env, st, (api, t));
  }

  /** One type's hook, run with its key in the set of hooks in progress. */
  ghost function RunType(env: Env, st: State, api: Api, t: TypeId): (r: (Outcome, State))
    requires ClosedEnv(env) && api in env.apis && t in env.types && (api, t) !in st.active
    ensures Balanced(st, r.1)
    ensures st.log + [TypeHook(t, api)] <= r.1.log
    decreases Unused(env, st), |st.modes|, 0
  {
    EnterShrinks(env, st, api, t);
    var r := Run(env, EnterType(st, api, t), env.typeProg(t, api));
    (r.0, r.1.(active := r.1.active - {(api, t)}))
  }

  ghost function RedispatchCall(env: Env, st: State, target: Target, api: Api, args: seq<Value>): (r: (Outcome, State))
    requires ClosedEnv(env) && KnownCall(env, api, args)
    ensures Balanced(st, r.1)
    decreases Unused(env, st), |st.modes|, 6
  {
    if !MayRedispatch(st, target) then (Raised(DoubleSkip), st)
    else
      var r := CallFunction(env, EnterRedispatch(st, target), api, args);
      LeaveRedispatch(target, r.0, r.1)
  }

  /** A hook's program, run to its end. */
  ghost function Run(env: Env, st: State, p: Prog): (r: (Outcome, State))
    requires ClosedEnv(env) && ClosedProg(env, p)
    ensures Balanced(st, r.1)
    decreases Unused(env, st), |st.modes|, 7, p, 1
  {
    if p.Finish? then (p.outcome, st)
    else
      var r := RunStep(env, st, p);
      Run(env, r.1, p.next[r.0])
  }

  /** The nested call or block a program starts with. */
  ghost function RunStep(env: Env, st: State, p: Prog): (r: (Outcome, State))
    requires ClosedEnv(env) && ClosedProg(env, p) && !p.Finish?
    ensures Balanced(st, r.1)
    decreases Unused(env, st), |st.modes|, 7, p, 0
  {
    match p
    case Call(api, args, _) => CallFunction(env, st, api, args)
    case Redispatch(target, api, args, _) => RedispatchCall(env, st, target, api, args)
    case Reentrant(body, _) => RunReentrant(env, st, body)
    case Disabled(body, _) => RunDisabled(env, st, body)
  }

  ghost function RunReentrant(env: Env, st: State, body: Prog): (r: (Outcome, State))
    requires ClosedEnv(env) && ClosedProg(env, body)
    ensures Balanced(st, r.1)
    decreases Unused(env, st), |st.modes|, 7, body, 2
  {
    var r := Run(env, EnterReentrant(st), body);
    (r.0, LeaveReentrant(st, r.1))
  }

  ghost function RunDisabled(env: Env, st: State, body: Prog): (r: (Outcome, State))
    requires ClosedEnv(env) && ClosedProg(env, body)
    ensures Balanced(st, r.1)
    decreases Unused(env, st), |st.modes|, 7, body, 2
  {
    var r := Run(env, st.(switch := AllDisabled), body);
    (r.0, r.1.(switch := st.switch))
  }

  /** `enable_reentrant_dispatch` sets pending skips aside and switches dispatch on. */
  function EnterReentrant(st: State): (r: State) {
    st.(switch := FunctionEnabled, skipFunction := false, skipSubclass := false)
  }

  function LeaveReentrant(before: State, st: State): (r: State) {
    st.(switch := before.switch, skipFunction := before.skipFunction, skipSubclass := before.skipSubclass)
  }

  // ----- theorems -----

  /** Every dispatched call, whatever its hooks do and however it ends, hands back the
      mode stack, the set of hooks in progress and the switch as it found them, with no skip
      pending that was not; meanwhile no hook in progress was entered again. */
  lemma DispatchIsBalanced(env: Env, st: State, api: Api, args: seq<Value>)
    requires ClosedEnv(env) && KnownCall(env, api, args)
    ensures var r := Handle(env, st, api, args).1;
            && r.modes == st.modes && r.active == st.active && r.switch == st.switch
            && (r.skipFunction ==> st.skipFunction) && (r.skipSubclass ==> st.skipSubclass)
            && (forall i :: |st.log| <= i < |r.log| && r.log[i].TypeHook? ==>
                  (r.log[i].api, r.log[i].typ) !in st.active)
            && (forall i :: |st.log| <= i < |r.log| && r.log[i].ModeHook? ==> r.log[i].mode in st.modes)
  {
    var r := Handle(env, st, api, args).1;
    assert AllowedFrom(st, r.log, |st.log|);
    forall i | |st.log| <= i < |r.log| ensures Allowed(st, r.log[i]) {
    }
  }

  /** Past its guards a redispatch ends with every flag it set clear, however the target and
      the hooks below it ended; it hands on the target's own outcome, except that a result is
      refused exactly when the target left one of those flags pending. */
  lemma RedispatchIsOneShot(env: Env, st: State, target: Target, api: Api, args: seq<Value>, below: (Outcome, State))
    requires ClosedEnv(env) && KnownCall(env, api, args) && MayRedispatch(st, target)
    requires below == CallFunction(env, EnterRedispatch(st, target), api, args)
    ensures var r := RedispatchCall(env, st, target, api, args);
            && !r.1.skipFunction && (r.1.skipSubclass ==> st.skipSubclass && !SetsSubclassSkip(target))
            && (r.0 == below.0 || r.0 == Raised(SkipNotConsumed))
            && (below.0.Raised? ==> r.0 == below.0)
            && (!below.0.Raised? ==> (r.0 == Raised(SkipNotConsumed) <==>
                  || (!env.wrapped(api) && below.1.skipFunction)
                  || (SetsSubclassSkip(target) && below.1.skipSubclass)))
  {
    if env.wrapped(api) { ConsumesFunctionSkip(env, EnterRedispatch(st, target), api, args); }
  }

  /** The function is reached without a hook: it is plain, no mode is active, or dispatch is off. */
  predicate ReachesBody(env: Env, st: State, api: Api) {
    !env.wrapped(api) || st.modes == [] || st.switch == AllDisabled
  }

  /** A flag the redispatch sets that neither the wrapper nor the body takes. */
  predicate LeavesSkip(env: Env, target: Target, api: Api) {
    || (!env.wrapped(api) && !env.body(api).takesFunctionSkip)
    || (SetsSubclassSkip(target) && !env.body(api).takesSubclassSkip)
  }

  /** Where the body is reached without a hook, its result is refused exactly when a flag is left
      over, which the caller can tell from the function alone. */
  lemma RefusedExactly(env: Env, st: State, target: Target, api: Api, args: seq<Value>)
    requires ClosedEnv(env) && KnownCall(env, api, args) && MayRedispatch(st, target) && ReachesBody(env, st, api)
    ensures RedispatchCall(env, st, target, api, args).0 ==
            if !env.body(api).outcome.Raised? && LeavesSkip(env, target, api) then Raised(SkipNotConsumed)
            else env.body(api).outcome
  {
    var st1 := EnterRedispatch(st, target);
    var d := MustDispatch(env, st1, args);
    assert env.wrapped(api) ==> !d.0 && !d.1.skipFunction;
  }

  /** A wrapped function consumes a pending function skip before anything else runs. */
  lemma ConsumesFunctionSkip(env: Env, st: State, api: Api, args: seq<Value>)
    requires ClosedEnv(env) && KnownCall(env, api, args) && env.wrapped(api)
    ensures !CallFunction(env, st, api, args).1.skipFunction
  {
    var d := MustDispatch(env, st, args);
    if d.0 {
      assert Balanced(d.1, Handle(env, d.1, api, args).1);
    } else {
      assert Balanced(d.1, RunBody(env, d.1, api).1);
    }
  }

  /** A redispatched function runs its body and nothing else exactly when it is plain, no mode
      is active, or dispatch is off: with a mode on the stack the consumed skip does not
      keep the dispatcher from being entered. */
  lemma RedispatchReachesBodyExactly(env: Env, st: State, target: Target, api: Api, args: seq<Value>)
    requires ClosedEnv(env) && KnownCall(env, api, args) && MayRedispatch(st, target)
    ensures RedispatchCall(env, st, target, api, args).1.log == st.log + [Body(api)]
       <==> ReachesBody(env, st, api)
  {
    var st1 := EnterRedispatch(st, target);
    var d := MustDispatch(env, st1, args);
    if env.wrapped(api) && d.0 {
      HandleNeverStartsWithBody(env, d.1, api, args);
    }
  }

  lemma HandleNeverStartsWithBody(env: Env, st: State, api: Api, args: seq<Value>)
    requires ClosedEnv(env) && KnownCall(env, api, args) && !st.skipFunction && st.switch != AllDisabled
    ensures var log := Handle(env, st, api, args).1.log;
            log == st.log || (|log| > |st.log| && !log[|st.log|].Body?)
  {
    OverloadedKnown(env, st.switch, args);
    var r := TryMode(env, st, api);
    if r != (NotImplemented, st) {
      var m :| st.log + [ModeHook(m, api)] <= r.1.log;
      FirstEvent(st.log, ModeHook(m, api), r.1.log);
    }
    if r.0 == NotImplemented {
      var overloaded := Overloaded(env, st.switch, args);
      var r2 := TryTypes(env, r.1, api, overloaded, 0);
      if r == (NotImplemented, st) && r2.1.log != st.log {
        var t :| st.log + [TypeHook(t, api)] <= r2.1.log;
        FirstEvent(st.log, TypeHook(t, api), r2.1.log);
      }
    }
  }

  lemma FirstEvent(before: seq<Event>, e: Event, log: seq<Event>)
    requires before + [e] <= log
    ensures |log| > |before| && log[|before|] == e
  {
    assert (before + [e])[|before|] == e;
  }
}

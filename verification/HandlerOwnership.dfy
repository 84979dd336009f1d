/** Ownership of the type-erased targets behind `asio::any_completion_handler`
    (include/asio/any_completion_handler.hpp:91-115, 179-191, 655-722, 746-756). */
module HandlerOwnership {
  import opened Common

  /** What happens to a target: it is constructed in fresh storage, destroyed with its storage returned, and its moved
      out handler is called. */
  datatype Event = Created(id: nat) | Destroyed(id: nat) | Invoked(id: nat)

  /** The two fields of a handler: the function table, which depends on the target's type, and the target. */
  datatype Fields = Fields(fnTable: Option<nat>, impl: Option<nat>)

  const NO_TARGET := Fields(None, None)

  /** Handler variables of the program, and the unnamed temporary of an assignment. */
  datatype Name = Var(n: nat) | Temporary

  type Handlers = map<Name, Fields>

  /** `types[id]` is the type of target `id`; targets are numbered in order of creation. */
  datatype World = World(handlers: Handlers, types: seq<nat>, log: seq<Event>)

  datatype Op =
    | ConstructEmpty(h: Name)
    | ConstructTarget(h: Name, type_: nat)
    | MoveConstruct(h: Name, other: Name)
    | MoveAssign(h: Name, other: Name)
    | AssignNull(h: Name)
    | Swap(h: Name, other: Name)
    | Call(h: Name, moveThrows: bool)
    | Destruct(h: Name)

  /** The handlers an operation names exist, or do not exist yet where it constructs one. */
  predicate Enabled(hs: set<Name>, op: Op) {
    && op.h.Var?
    && match op
       case ConstructEmpty(h) => h !in hs
       case ConstructTarget(h, _) => h !in hs
       case MoveConstruct(h, other) => h !in hs && other in hs && other.Var?
       case MoveAssign(h, other) => h in hs && other in hs && other.Var?
       case AssignNull(h) => h in hs
       case Swap(h, other) => h in hs && other in hs && other.Var?
       case Call(h, _) => h in hs
       case Destruct(h) => h in hs
  }

  // ---------------------------------------------------------------------------------------------------------------
  // The transitions, on values

  function AddEmpty(w: World, h: Name): World {
    w.(handlers := w.handlers[h := NO_TARGET])
  }

  function AddTarget(w: World, h: Name, type_: nat): World {
    var id := |w.types|;
    World(w.handlers[h := Fields(Some(type_), Some(id))], w.types + [type_], w.log + [Created(id)])
  }

  function Exchange(w: World, a: Name, b: Name): World
    requires a in w.handlers && b in w.handlers
  {
    w.(handlers := w.handlers[a := w.handlers[b]][b := w.handlers[a]])
  }

  function Remove(w: World, h: Name): World
    requires h in w.handlers
  {
    var impl := w.handlers[h].impl;
    World(w.handlers - {h}, w.types, if impl.Some? then w.log + [Destroyed(impl.value)] else w.log)
  }

  /** A call clears only the target field; the target is gone before the user's handler runs.  When moving the
      handler out throws, it is gone all the same and nothing runs.  An empty handler throws `bad_function_call`. */
  function Invoke(w: World, h: Name, moveThrows: bool): World
    requires h in w.handlers
  {
    var p := w.handlers[h];
    if p.impl.None? then w else
    w.(handlers := w.handlers[h := p.(impl := None)],
       log := w.log + [Destroyed(p.impl.value)] + if moveThrows then [] else [Invoked(p.impl.value)])
  }

  function Step(w: World, op: Op): World
    requires Enabled(w.handlers.Keys, op)
  {
    match op
    case ConstructEmpty(h) => AddEmpty(w, h)
    case ConstructTarget(h, type_) => AddTarget(w, h, type_)
    case MoveConstruct(h, other) => Exchange(AddEmpty(w, h), h, other)
    case MoveAssign(h, other) =>
      var moved := Exchange(AddEmpty(w, Temporary), Temporary, other);
      Remove(Exchange(moved, Temporary, h), Temporary)
    case AssignNull(h) => Remove(Exchange(AddEmpty(w, Temporary), Temporary, h), Temporary)
    case Swap(h, other) => Exchange(w, h, other)
    case Call(h, moveThrows) => Invoke(w, h, moveThrows)
    case Destruct(h) => Remove(w, h)
  }

  // ---------------------------------------------------------------------------------------------------------------
  // Linear ownership

  ghost predicate Owns(hs: Handlers, h: Name, id: nat) {
    h in hs && hs[h].impl == Some(id)
  }

  ghost predicate Owned(hs: Handlers, id: nat) {
    exists h :: Owns(hs, h, id)
  }

  function Count(log: seq<Event>, e: Event): nat {
    multiset(log)[e]
  }

  /** A target is owned through the function table of its own type, by one handler at most. */
  ghost predicate OwnersOk(hs: Handlers, types: seq<nat>) {
    && (forall h, id: nat | Owns(hs, h, id) :: id < |types| && hs[h].fnTable == Some(types[id]))
    && (forall g, h, id: nat | Owns(hs, g, id) && Owns(hs, h, id) :: g == h)
  }

  /** Every target was created once; it has been destroyed once if nobody owns it, and not at all otherwise; its
      handler ran at most once, and only after the target was gone. */
  ghost predicate LogOk(hs: Handlers, n: nat, log: seq<Event>) {
    && (forall id: nat | id < n :: Count(log, Created(id)) == 1)
    && (forall id: nat | id < n :: Count(log, Destroyed(id)) == if Owned(hs, id) then 0 else 1)
    && (forall id: nat :: Count(log, Invoked(id)) <= Count(log, Destroyed(id)))
    && (forall i | 0 <= i < |log| :: log[i].id < n)
    && (forall i | 0 <= i < |log| && log[i].Invoked? :: Destroyed(log[i].id) in log[..i])
  }

  ghost predicate Linear(w: World) {
    OwnersOk(w.handlers, w.types) && LogOk(w.handlers, |w.types|, w.log)
  }

  lemma LogSnoc(log: seq<Event>, e: Event)
    ensures forall f :: Count(log + [e], f) == Count(log, f) + if e == f then 1 else 0
    ensures forall i | 0 <= i <= |log| :: (log + [e])[..i] == log[..i]
  {
  }

  lemma CountZero(log: seq<Event>, n: nat, e: Event)
    requires forall i | 0 <= i < |log| :: log[i].id < n
    requires e.id >= n
    ensures Count(log, e) == 0
  {
    assert e !in log;
  }

  /** Handing targets around, with the same targets owned before and after, keeps ownership linear. */
  lemma SameOwned(hs: Handlers, hs': Handlers, n: nat, log: seq<Event>)
    requires LogOk(hs, n, log)
    requires forall id: nat :: Owned(hs, id) <==> Owned(hs', id)
    ensures LogOk(hs', n, log)
  {
  }

  lemma AddEmptyLinear(w: World, h: Name)
    requires Linear(w) && h !in w.handlers
    ensures Linear(AddEmpty(w, h))
  {
    var hs, hs' := w.handlers, AddEmpty(w, h).handlers;
    assert forall g, id: nat :: Owns(hs, g, id) <==> Owns(hs', g, id);
    SameOwned(hs, hs', |w.types|, w.log);
  }

  lemma ExchangeLinear(w: World, a: Name, b: Name)
    requires Linear(w) && a in w.handlers && b in w.handlers
    ensures Linear(Exchange(w, a, b))
  {
    var hs, hs' := w.handlers, Exchange(w, a, b).handlers;
    forall g, id: nat
      ensures Owns(hs', g, id) <==> Owns(hs, if g == a then b else if g == b then a else g, id)
    {
    }
    forall id: nat
      ensures Owned(hs, id) <==> Owned(hs', id)
    {
      if Owned(hs, id) {
        var g :| Owns(hs, g, id);
        assert Owns(hs', if g == a then b else if g == b then a else g, id);
      }
    }
    SameOwned(hs, hs', |w.types|, w.log);
  }

  lemma AddTargetLinear(w: World, h: Name, type_: nat)
    requires Linear(w) && h !in w.handlers
    ensures Linear(AddTarget(w, h, type_))
  {
    var w' := AddTarget(w, h, type_);
    var hs, hs', n := w.handlers, w'.handlers, |w.types|;
    LogSnoc(w.log, Created(n));
    forall e: Event | e.id >= n
      ensures Count(w.log, e) == 0
    {
      CountZero(w.log, n, e);
    }
    assert forall g, id: nat | g != h :: Owns(hs, g, id) <==> Owns(hs', g, id);
    assert Owns(hs', h, n);
    forall id: nat | id < n
      ensures Owned(hs, id) <==> Owned(hs', id)
    {
      if Owned(hs, id) {
        var g :| Owns(hs, g, id);
        assert Owns(hs', g, id);
      }
    }
  }

  /** Giving up `h`'s target, whose destruction is logged. */
  lemma DestroyedLinear(hs: Handlers, hs': Handlers, types: seq<nat>, log: seq<Event>, h: Name, id: nat)
    requires OwnersOk(hs, types) && LogOk(hs, |types|, log) && Owns(hs, h, id)
    requires forall g, i: nat | g != h :: Owns(hs, g, i) <==> Owns(hs', g, i)
    requires forall g | g in hs' && g != h :: g in hs && hs'[g] == hs[g]
    requires forall i: nat :: !Owns(hs', h, i)
    ensures OwnersOk(hs', types) && LogOk(hs', |types|, log + [Destroyed(id)])
  {
    LogSnoc(log, Destroyed(id));
    forall i: nat
      ensures Owned(hs', i) <==> (Owned(hs, i) && i != id)
    {
      if Owned(hs', i) {
        var g :| Owns(hs', g, i);
        assert Owns(hs, g, i);
      }
      if Owned(hs, i) && i != id {
        var g :| Owns(hs, g, i);
        assert Owns(hs', g, i);
      }
    }
  }

  lemma RemoveLinear(w: World, h: Name)
    requires Linear(w) && h in w.handlers
    ensures Linear(Remove(w, h))
  {
    var hs, hs' := w.handlers, Remove(w, h).handlers;
    assert forall g, id: nat | g != h :: Owns(hs, g, id) <==> Owns(hs', g, id);
    if w.handlers[h].impl.Some? {
      DestroyedLinear(hs, hs', w.types, w.log, h, w.handlers[h].impl.value);
    } else {
      assert forall id: nat :: !Owns(hs, h, id) && !Owns(hs', h, id);
      assert forall g, id: nat :: Owns(hs, g, id) <==> Owns(hs', g, id);
      SameOwned(hs, hs', |w.types|, w.log);
    }
  }

  lemma InvokeLinear(w: World, h: Name, moveThrows: bool)
    requires Linear(w) && h in w.handlers
    ensures Linear(Invoke(w, h, moveThrows))
  {
    if w.handlers[h].impl.Some? {
      var id := w.handlers[h].impl.value;
      var hs, hs' := w.handlers, Invoke(w, h, moveThrows).handlers;
      assert Owns(hs, h, id);
      assert forall g, i: nat | g != h :: Owns(hs, g, i) <==> Owns(hs', g, i);
      DestroyedLinear(hs, hs', w.types, w.log, h, id);
      var log := w.log + [Destroyed(id)];
      assert log + [] == log;
      if !moveThrows {
        InvokedOk(hs', |w.types|, w.log, id);
      }
    }
  }

  lemma InvokedOk(hs: Handlers, n: nat, log0: seq<Event>, id: nat)
    requires LogOk(hs, n, log0 + [Destroyed(id)]) && Count(log0, Invoked(id)) == 0
    ensures LogOk(hs, n, log0 + [Destroyed(id)] + [Invoked(id)])
  {
    var log := log0 + [Destroyed(id)];
    LogSnoc(log, Invoked(id));
    LogSnoc(log0, Destroyed(id));
    assert log[|log| - 1] == Destroyed(id);
  }

  lemma StepLinear(w: World, op: Op)
    requires Linear(w) && Enabled(w.handlers.Keys, op) && Temporary !in w.handlers
    ensures Linear(Step(w, op)) && Temporary !in Step(w, op).handlers
  {
    match op
    case ConstructEmpty(h) => AddEmptyLinear(w, h);
    case ConstructTarget(h, type_) => AddTargetLinear(w, h, type_);
    case MoveConstruct(h, other) =>
      AddEmptyLinear(w, h);
      ExchangeLinear(AddEmpty(w, h), h, other);
    case MoveAssign(h, other) =>
      var w1 := AddEmpty(w, Temporary);
      var w2 := Exchange(w1, Temporary, other);
      var w3 := Exchange(w2, Temporary, h);
      AddEmptyLinear(w, Temporary);
      ExchangeLinear(w1, Temporary, other);
      ExchangeLinear(w2, Temporary, h);
      RemoveLinear(w3, Temporary);
    case AssignNull(h) =>
      var w1 := AddEmpty(w, Temporary);
      AddEmptyLinear(w, Temporary);
      ExchangeLinear(w1, Temporary, h);
      RemoveLinear(Exchange(w1, Temporary, h), Temporary);
    case Swap(h, other) => ExchangeLinear(w, h, other);
    case Call(h, moveThrows) => InvokeLinear(w, h, moveThrows);
    case Destruct(h) => RemoveLinear(w, h);
  }

  /** What each operation does to the handlers, the targets and the log.  A target is destroyed when the handler that
      has it gives it up; a call runs its handler after that, unless moving it out throws; a call of an empty handler
      and an assignment to itself change nothing. */
  ghost predicate Does(w: World, op: Op, w': World)
    requires Enabled(w.handlers.Keys, op)
  {
    var hs := w.handlers;
    match op
    case ConstructEmpty(h) => w' == World(hs[h := Fields(None, None)], w.types, w.log)
    case ConstructTarget(h, type_) =>
      w' == World(hs[h := Fields(Some(type_), Some(|w.types|))], w.types + [type_], w.log + [Created(|w.types|)])
    case MoveConstruct(h, other) => w' == World(hs[h := hs[other]][other := Fields(None, None)], w.types, w.log)
    case MoveAssign(h, other) =>
      if h == other then w' == w
      else w' == World(hs[h := hs[other]][other := Fields(None, None)], w.types, w.log + Destruction(hs[h].impl))
    case AssignNull(h) => w' == World(hs[h := Fields(None, None)], w.types, w.log + Destruction(hs[h].impl))
    case Swap(h, other) => w' == World(hs[h := hs[other]][other := hs[h]], w.types, w.log)
    case Call(h, moveThrows) =>
      match hs[h].impl {
        case None => w' == w
        case Some(id) =>
          && w'.handlers == hs[h := Fields(hs[h].fnTable, None)] && w'.types == w.types
          && w'.log == if moveThrows then w.log + [Destroyed(id)] else w.log + [Destroyed(id), Invoked(id)]
      }
    case Destruct(h) => w' == World(hs - {h}, w.types, w.log + Destruction(hs[h].impl))
  }

  function Destruction(impl: Option<nat>): seq<Event> {
    match impl
    case None => []
    case Some(id) => [Destroyed(id)]
  }

  lemma StepDoes(w: World, op: Op)
    requires Enabled(w.handlers.Keys, op) && Temporary !in w.handlers
    ensures Does(w, op, Step(w, op))
  {
    assert w.log + [] == w.log;
    match op
    case MoveConstruct(h, other) => MoveIsExchange(w, h, other);
    case MoveAssign(h, other) =>
      assert Step(w, op).handlers == if h == other then w.handlers else w.handlers[h := w.handlers[other]][other := NO_TARGET];
    case AssignNull(h) => assert Step(w, op).handlers == w.handlers[h := NO_TARGET];
    case Swap(h, other) => assert Step(w, op).handlers == w.handlers[h := w.handlers[other]][other := w.handlers[h]];
    case _ =>
  }

  /** The world after a run; operations that name no suitable handler are not part of any program and are skipped. */
  function Run(ops: seq<Op>): World {
    if ops == [] then World(map[], [], []) else
    var w := Run(ops[..|ops| - 1]);
    var op := ops[|ops| - 1];
    if Enabled(w.handlers.Keys, op) then Step(w, op) else w
  }

  lemma {:induction false} RunLinear(ops: seq<Op>)
    ensures Linear(Run(ops)) && Temporary !in Run(ops).handlers
  {
    if ops == [] {
      assert forall h, id: nat :: !Owns(map[], h, id);
      assert Run(ops) == World(map[], [], []);
    } else {
      RunLinear(ops[..|ops| - 1]);
      var w := Run(ops[..|ops| - 1]);
      if Enabled(w.handlers.Keys, ops[|ops| - 1]) {
        StepLinear(w, ops[|ops| - 1]);
      }
    }
  }

  /** Every operation of every run does what it says. */
  lemma RunDoes(ops: seq<Op>, i: nat)
    requires i < |ops|
    ensures if Enabled(Run(ops[..i]).handlers.Keys, ops[i]) then Does(Run(ops[..i]), ops[i], Run(ops[..i + 1]))
            else Run(ops[..i + 1]) == Run(ops[..i])
  {
    hide Step, Does;
    assert ops[..i + 1][..i] == ops[..i];
    RunLinear(ops[..i]);
    if Enabled(Run(ops[..i]).handlers.Keys, ops[i]) {
      StepDoes(Run(ops[..i]), ops[i]);
    }
  }

  /** Operation `i` calls a handler with target `id`, and moving it out does not throw. */
  ghost predicate CompletedAt(ops: seq<Op>, i: nat, id: nat) {
    && i < |ops| && ops[i].Call? && !ops[i].moveThrows
    && Enabled(Run(ops[..i]).handlers.Keys, ops[i])
    && Run(ops[..i]).handlers[ops[i].h].impl == Some(id)
  }

  /** In every run, the handler of a target runs, and then once, exactly when it is called through a handler that has
      the target and moving it out does not throw. */
  lemma InvokedIffCalled(ops: seq<Op>, id: nat)
    ensures Count(Run(ops).log, Invoked(id)) == if exists i: nat :: CompletedAt(ops, i, id) then 1 else 0
  {
    hide CompletedAt, Run, LogOk;
    InvokedUpTo(ops, id, |ops|);
    assert ops[..|ops|] == ops;
    InvokedOnce(ops, id);
    forall i: nat | CompletedAt(ops, i, id)
      ensures i < |ops|
    {
      CompletedInRange(ops, i, id);
    }
  }

  lemma CompletedInRange(ops: seq<Op>, i: nat, id: nat)
    requires CompletedAt(ops, i, id)
    ensures i < |ops|
  {
  }

  lemma InvokedOnce(ops: seq<Op>, id: nat)
    ensures Count(Run(ops).log, Invoked(id)) <= 1
  {
    RunLinear(ops);
    if id >= |Run(ops).types| {
      CountZero(Run(ops).log, |Run(ops).types|, Invoked(id));
    }
  }

  lemma {:induction false} InvokedUpTo(ops: seq<Op>, id: nat, n: nat)
    requires n <= |ops|
    ensures Count(Run(ops[..n]).log, Invoked(id)) > 0 <==> exists i: nat | i < n :: CompletedAt(ops, i, id)
  {
    hide CompletedAt, Run;
    if n > 0 {
      InvokedUpTo(ops, id, n - 1);
      InvokedByStep(ops, id, n - 1);
    } else {
      assert ops[..0] == [];
      NothingInvokedYet(id);
    }
  }

  lemma NothingInvokedYet(id: nat)
    ensures Count(Run([]).log, Invoked(id)) == 0
  {
  }

  lemma InvokedByStep(ops: seq<Op>, id: nat, i: nat)
    requires i < |ops|
    ensures Count(Run(ops[..i + 1]).log, Invoked(id)) ==
            Count(Run(ops[..i]).log, Invoked(id)) + if CompletedAt(ops, i, id) then 1 else 0
  {
    hide Run;
    RunDoes(ops, i);
    var w, op := Run(ops[..i]), ops[i];
    if Enabled(w.handlers.Keys, op) {
      DoesInvoke(w, op, Run(ops[..i + 1]), id);
    }
  }

  lemma DoesInvoke(w: World, op: Op, w': World, id: nat)
    requires Enabled(w.handlers.Keys, op) && Does(w, op, w')
    ensures Count(w'.log, Invoked(id)) ==
            Count(w.log, Invoked(id)) + if op.Call? && !op.moveThrows && w.handlers[op.h].impl == Some(id) then 1 else 0
  {
    assert w.log + [] == w.log;
  }

  /** Once all handlers are gone, or empty, every target ever created has been destroyed exactly once. */
  lemma NothingLeaks(ops: seq<Op>, id: nat)
    requires id < |Run(ops).types|
    requires forall h | h in Run(ops).handlers :: Run(ops).handlers[h].impl.None?
    ensures Count(Run(ops).log, Created(id)) == 1 && Count(Run(ops).log, Destroyed(id)) == 1
  {
    RunLinear(ops);
    assert forall h :: !Owns(Run(ops).handlers, h, id);
  }

  /** Every handler has a function table exactly when it has a target. */
  ghost predicate TablesWithTargets(hs: Handlers) {
    forall h | h in hs :: hs[h].fnTable.Some? <==> hs[h].impl.Some?
  }

  predicate CallsTarget(w: World, op: Op) {
    op.Call? && op.h in w.handlers && w.handlers[op.h].impl.Some?
  }

  /** Only a call that has a target to call leaves a table without one. */
  lemma StepKeepsTablesIff(w: World, op: Op)
    requires TablesWithTargets(w.handlers) && Enabled(w.handlers.Keys, op) && Temporary !in w.handlers
    ensures TablesWithTargets(Step(w, op).handlers) <==> !CallsTarget(w, op)
  {
    if CallsTarget(w, op) {
      assert Step(w, op).handlers[op.h].fnTable.Some? && Step(w, op).handlers[op.h].impl.None?;
    }
  }

  /** Throughout a run tables and targets come together exactly when no handler that has a target is ever called. */
  lemma TablesWithTargetsIff(ops: seq<Op>)
    ensures (forall i | 0 <= i <= |ops| :: TablesWithTargets(Run(ops[..i]).handlers))
       <==> (forall i | 0 <= i < |ops| :: !CallsTarget(Run(ops[..i]), ops[i]))
  {
    TablesUpTo(ops, |ops|);
  }

  lemma {:induction false} TablesUpTo(ops: seq<Op>, n: nat)
    requires n <= |ops|
    ensures (forall i | 0 <= i <= n :: TablesWithTargets(Run(ops[..i]).handlers))
       <==> (forall i | 0 <= i < n :: !CallsTarget(Run(ops[..i]), ops[i]))
  {
    hide Run, TablesWithTargets, CallsTarget;
    if n > 0 {
      TablesUpTo(ops, n - 1);
      TablesAfter(ops, n - 1);
    } else {
      NoTablesYet();
      assert ops[..0] == [];
    }
  }

  lemma NoTablesYet()
    ensures TablesWithTargets(Run([]).handlers)
  {
  }

  lemma TablesAfter(ops: seq<Op>, n: nat)
    requires n < |ops|
    ensures TablesWithTargets(Run(ops[..n]).handlers) ==>
              (TablesWithTargets(Run(ops[..n + 1]).handlers) <==> !CallsTarget(Run(ops[..n]), ops[n]))
  {
    var w, op := Run(ops[..n]), ops[n];
    RunLinear(ops[..n]);
    assert ops[..n + 1][..n] == ops[..n];
    if TablesWithTargets(w.handlers) && Enabled(w.handlers.Keys, op) {
      StepKeepsTablesIff(w, op);
    }
  }

  /** A handler that has been called is empty, and still has the table. */
  lemma CallLeavesTable(h: Name, type_: nat, moveThrows: bool)
    requires h.Var?
    ensures Run([ConstructTarget(h, type_), Call(h, moveThrows)]).handlers == map[h := Fields(Some(type_), None)]
  {
    var ops := [ConstructTarget(h, type_), Call(h, moveThrows)];
    assert ops[..1] == [ConstructTarget(h, type_)] && ops[..1][..0] == [];
    assert Run(ops[..1]) == AddTarget(World(map[], [], []), h, type_);
  }

  // ---------------------------------------------------------------------------------------------------------------
  // The class itself, on objects, against the transitions above

  /** The storage of targets; creation and destruction go through it. */
  class Targets {
    var types: seq<nat>
    var log: seq<Event>

    constructor ()
      ensures types == [] && log == []
    {
      types, log := [], [];
    }

    method Create(type_: nat) returns (id: nat)
      modifies this
      ensures id == old(|types|) && types == old(types) + [type_] && log == old(log) + [Created(id)]
    {
      id := |types|;
      types := types + [type_];
      log := log + [Created(id)];
    }

    method Destroy(id: nat)
      modifies this`log
      ensures log == old(log) + [Destroyed(id)]
    {
      log := log + [Destroyed(id)];
    }
  }

  class Handler {
    var fnTable: Option<nat>
    var impl: Option<nat>

    function State(): Fields
      reads this
    {
      Fields(fnTable, impl)
    }

    constructor Empty()
      ensures State() == NO_TARGET
    {
      fnTable, impl := None, None;
    }

    constructor Holding(type_: nat, targets: Targets)
      modifies targets
      ensures State() == Fields(Some(type_), Some(old(|targets.types|)))
      ensures targets.types == old(targets.types) + [type_]
      ensures targets.log == old(targets.log) + [Created(old(|targets.types|))]
    {
      fnTable := Some(type_);
      var id := targets.Create(type_);
      impl := Some(id);
    }

    constructor MovedFrom(other: Handler)
      modifies other
      ensures State() == old(other.State()) && other.State() == NO_TARGET
    {
      fnTable, impl := other.fnTable, other.impl;
      new;
      other.fnTable := None;
      other.impl := None;
    }

    method Swap(other: Handler)
      modifies this, other
      ensures State() == old(other.State()) && other.State() == old(State())
    {
      fnTable, other.fnTable := other.fnTable, fnTable;
      impl, other.impl := other.impl, impl;
    }

    /** The destructor. */
    method Destruct(targets: Targets)
      modifies targets`log
      ensures targets.log == old(targets.log) + if impl.Some? then [Destroyed(impl.value)] else []
    {
      if impl.Some? {
        targets.Destroy(impl.value);
      }
    }

    /** The old target, if any, goes with the temporary, unless it is the one that came in. */
    method MoveAssign(other: Handler, targets: Targets)
      modifies this, other, targets`log
      ensures State() == old(other.State()) && (other != this ==> other.State() == NO_TARGET)
      ensures targets.log == old(targets.log) + if other != this && old(impl).Some? then [Destroyed(old(impl).value)] else []
    {
      var temporary := new Handler.MovedFrom(other);
      temporary.Swap(this);
      temporary.Destruct(targets);
    }

    method AssignNull(targets: Targets)
      modifies this, targets`log
      ensures State() == NO_TARGET
      ensures targets.log == old(targets.log) + if old(impl).Some? then [Destroyed(old(impl).value)] else []
    {
      var temporary := new Handler.Empty();
      temporary.Swap(this);
      temporary.Destruct(targets);
    }

    /** `badCall` is `std::bad_function_call`. */
    method Call(moveThrows: bool, targets: Targets) returns (badCall: bool)
      modifies this`impl, targets`log
      ensures badCall <==> old(impl).None?
      ensures impl.None?
      ensures targets.log == old(targets.log) +
                if badCall then []
                else [Destroyed(old(impl).value)] + if moveThrows then [] else [Invoked(old(impl).value)]
    {
      if impl.Some? {
        var target := impl.value;
        impl := None;
        targets.Destroy(target);
        if !moveThrows {
          targets.log := targets.log + [Invoked(target)];
        }
        return false;
      }
      return true;
    }
  }

  lemma MoveIsExchange(w: World, h: Name, other: Name)
    requires h !in w.handlers && other in w.handlers
    ensures Exchange(AddEmpty(w, h), h, other) == w.(handlers := w.handlers[h := w.handlers[other]][other := NO_TARGET])
  {
  }

  /** A program's handler variables. */
  class Program {
    var handlers: map<Name, Handler>
    const targets: Targets

    ghost predicate Valid()
      reads this
    {
      && Temporary !in handlers
      && (forall g, h | g in handlers && h in handlers && g != h :: handlers[g] != handlers[h])
    }

    ghost function View(): World
      reads this, handlers.Values, targets
    {
      World(map h | h in handlers :: handlers[h].State(), targets.types, targets.log)
    }

    constructor ()
      ensures Valid() && View() == Run([]) && fresh(targets)
    {
      handlers := map[];
      targets := new Targets();
    }

    method Declare(h: Name, x: Handler)
      requires Valid() && h !in handlers && h.Var? && x !in handlers.Values
      modifies this`handlers
      ensures Valid() && handlers == old(handlers)[h := x]
    {
      handlers := handlers[h := x];
    }

    method DoConstructEmpty(h: Name)
      requires Valid() && h !in handlers && h.Var?
      modifies this
      ensures Valid() && fresh(handlers.Values - old(handlers.Values))
      ensures View() == AddEmpty(old(View()), h)
    {
      var x := new Handler.Empty();
      Declare(h, x);
      assert View().handlers == AddEmpty(old(View()), h).handlers;
    }

    method DoConstructTarget(h: Name, type_: nat)
      requires Valid() && h !in handlers && h.Var?
      modifies this, targets
      ensures Valid() && fresh(handlers.Values - old(handlers.Values))
      ensures View() == AddTarget(old(View()), h, type_)
    {
      var x := new Handler.Holding(type_, targets);
      Declare(h, x);
      assert View().handlers == AddTarget(old(View()), h, type_).handlers;
    }

    method DoMoveConstruct(h: Name, other: Name)
      requires Valid() && h !in handlers && h.Var? && other in handlers
      modifies this, handlers.Values
      ensures Valid() && fresh(handlers.Values - old(handlers.Values))
      ensures View() == Exchange(AddEmpty(old(View()), h), h, other)
    {
      hide Exchange, AddEmpty;
      ghost var before := View();
      MoveIsExchange(before, h, other);
      var x := new Handler.MovedFrom(handlers[other]);
      Declare(h, x);
      assert View().handlers == before.handlers[h := before.handlers[other]][other := NO_TARGET];
    }

    method DoMoveAssign(h: Name, other: Name)
      requires Valid() && h in handlers && h.Var? && other in handlers && other.Var?
      modifies this, handlers.Values, targets
      ensures Valid() && handlers.Values <= old(handlers.Values)
      ensures Enabled(old(View()).handlers.Keys, MoveAssign(h, other)) && View() == Step(old(View()), MoveAssign(h, other))
    {
      ghost var w := View();
      handlers[h].MoveAssign(handlers[other], targets);
      assert View().handlers == Step(w, MoveAssign(h, other)).handlers;
    }

    method DoAssignNull(h: Name)
      requires Valid() && h in handlers && h.Var?
      modifies this, handlers.Values, targets
      ensures Valid() && handlers.Values <= old(handlers.Values)
      ensures Enabled(old(View()).handlers.Keys, AssignNull(h)) && View() == Step(old(View()), AssignNull(h))
    {
      ghost var w := View();
      handlers[h].AssignNull(targets);
      assert View().handlers == Step(w, AssignNull(h)).handlers;
    }

    method DoSwap(h: Name, other: Name)
      requires Valid() && h in handlers && h.Var? && other in handlers && other.Var?
      modifies this, handlers.Values, targets
      ensures Valid() && handlers.Values <= old(handlers.Values)
      ensures Enabled(old(View()).handlers.Keys, Swap(h, other)) && View() == Step(old(View()), Swap(h, other))
    {
      ghost var w := View();
      handlers[h].Swap(handlers[other]);
      assert View().handlers == Step(w, Swap(h, other)).handlers;
    }

    method DoCall(h: Name, moveThrows: bool)
      requires Valid() && h in handlers && h.Var?
      modifies this, handlers.Values, targets
      ensures Valid() && handlers.Values <= old(handlers.Values)
      ensures Enabled(old(View()).handlers.Keys, Call(h, moveThrows)) && View() == Step(old(View()), Call(h, moveThrows))
    {
      ghost var w := View();
      var _ := handlers[h].Call(moveThrows, targets);
      assert View().handlers == Step(w, Call(h, moveThrows)).handlers;
    }

    method DoDestruct(h: Name)
      requires Valid() && h in handlers && h.Var?
      modifies this, handlers.Values, targets
      ensures Valid() && handlers.Values <= old(handlers.Values)
      ensures Enabled(old(View()).handlers.Keys, Destruct(h)) && View() == Step(old(View()), Destruct(h))
    {
      ghost var w := View();
      handlers[h].Destruct(targets);
      handlers := handlers - {h};
      assert View().handlers == Step(w, Destruct(h)).handlers;
    }

    /** One statement of the program, on the objects, is one step of the world. */
    method Do(op: Op)
      requires Valid() && Enabled(handlers.Keys, op)
      modifies this, handlers.Values, targets
      ensures Valid() && fresh(handlers.Values - old(handlers.Values))
      ensures Enabled(old(View()).handlers.Keys, op) && View() == Step(old(View()), op)
      ensures Does(old(View()), op, View())
    {
      assert View().handlers.Keys == handlers.Keys;
      StepDoes(View(), op);
      hide Does;
      match op
      case ConstructEmpty(h) => DoConstructEmpty(h);
      case ConstructTarget(h, type_) => DoConstructTarget(h, type_);
      case MoveConstruct(h, other) => DoMoveConstruct(h, other);
      case MoveAssign(h, other) => DoMoveAssign(h, other);
      case AssignNull(h) => DoAssignNull(h);
      case Swap(h, other) => DoSwap(h, other);
      case Call(h, moveThrows) => DoCall(h, moveThrows);
      case Destruct(h) => DoDestruct(h);
    }

    method Execute(ops: seq<Op>)
      requires Valid() && View() == Run([])
      modifies this, handlers.Values, targets
      ensures Valid() && View() == Run(ops) && Linear(View())
    {
      var i := 0;
      while i < |ops|
        invariant i <= |ops| && Valid() && fresh(handlers.Values - old(handlers.Values))
        invariant View() == Run(ops[..i])
      {
        assert ops[..i + 1][..i] == ops[..i];
        assert View().handlers.Keys == handlers.Keys;
        if Enabled(handlers.Keys, ops[i]) {
          Do(ops[i]);
        }
        i := i + 1;
      }
      assert ops[..i] == ops;
      RunLinear(ops);
    }
  }
}

/**
  The run loop (`FlowRunner.run`) and the start of a session: seeding the
  context from the store and choosing the entry flow.

  The source loop has no bound: a `goto` cycle runs for ever. Here the loop
  takes a step budget (`fuel`) and reports `OutOfFuel` when it is spent.
 */
module Runner {
  import opened Wrappers
  import opened JsValues
  import opened Template
  import opened Flow

  /** The node about to run: a sequence name and an index into it. */
  datatype Cursor = Cursor(name: string, index: nat)

  /** How a run ends, with the state at that point and the number of steps
      completed. `MissingTarget` is a jump to a sequence the graph does not
      have: the source then reads `undefined.length` and throws.
      `AwaitingInput` is a run suspended on an input that no remaining event
      resolves. */
  datatype Outcome =
    | Finished(m: Machine, steps: nat)
    | MissingTarget(target: string, m: Machine, steps: nat)
    | AwaitingInput(at: Cursor, m: Machine, steps: nat)
    | OutOfFuel(at: Cursor, m: Machine, steps: nat)
  {
    function Later(): Outcome {
      this.(steps := steps + 1)
    }
  }

  /** Where the cursor goes after a step: a string jump restarts at index 0
      of the named sequence, or fails when there is none; no jump moves to
      the next index of the same sequence. */
  datatype Position = At(cursor: Cursor) | Missing(target: string)

  function Advance(flows: Flows, at: Cursor, jump: Option<string>): (p: Position)
    ensures p.At? ==> p.cursor.name in flows
    requires at.name in flows
  {
    match jump
    case Some(t) => if t in flows then At(Cursor(t, 0)) else Missing(t)
    case None => At(Cursor(at.name, at.index + 1))
  }

  /** The `while (i < seq.length)` loop, one step per unit of fuel. */
  function Loop(flows: Flows, bank: MessageBank, at: Cursor, m: Machine, fuel: nat): (o: Outcome)
    requires at.name in flows
    ensures o.steps <= fuel
    ensures o.MissingTarget? ==> o.target !in flows && o.steps > 0
    decreases fuel
  {
    var nodes := flows[at.name];
    if at.index >= |nodes| then Finished(m, 0)
    else if fuel == 0 then OutOfFuel(at, m, 0)
    else
      match Step(nodes[at.index], m, bank)
      case Blocked => AwaitingInput(at, m, 0)
      case Stepped(m', jump) =>
        match Advance(flows, at, jump)
        case Missing(t) => MissingTarget(t, m', 1)
        case At(next) => Loop(flows, bank, next, m', fuel - 1).Later()
  }

  /** `run(sequenceName)`: an absent entry sequence does nothing. */
  function Run(flows: Flows, bank: MessageBank, entry: string, m: Machine, fuel: nat): (o: Outcome)
    ensures entry !in flows ==> o == Finished(m, 0)
    ensures o.steps <= fuel
    ensures o.MissingTarget? ==> o.target !in flows
  {
    if entry in flows then Loop(flows, bank, Cursor(entry, 0), m, fuel) else Finished(m, 0)
  }

  /** The run loop as the source writes it: step the node under the cursor,
      follow a jump to index 0 of its target (`continue`), otherwise move to
      the next index; stop at the end of the current sequence. */
  method RunFlow(flows: Flows, bank: MessageBank, entry: string, m0: Machine, fuel: nat) returns (o: Outcome)
    ensures o == Run(flows, bank, entry, m0, fuel)
  {
    hide StepAt;
    hide Loop;
    if entry !in flows {
      return Finished(m0, 0);
    }
    var at := Cursor(entry, 0);
    var m := m0;
    var steps := 0;
    while at.index < |flows[at.name]|
      invariant at.name in flows && steps <= fuel
      invariant Run(flows, bank, entry, m0, fuel) == Shifted(Loop(flows, bank, at, m, fuel - steps), steps)
      decreases fuel - steps
    {
      LoopUnfold(flows, bank, at, m, fuel - steps);
      if steps == fuel {
        return OutOfFuel(at, m, steps);
      }
      var r := StepAt(flows, bank, at, m);
      if r.Blocked? {
        return AwaitingInput(at, m, steps);
      }
      m := r.m;
      steps := steps + 1;
      if r.jump.Some? {
        if r.jump.value !in flows {
          return MissingTarget(r.jump.value, m, steps);
        }
        at := Cursor(r.jump.value, 0);
        continue;
      }
      at := Cursor(at.name, at.index + 1);
    }
    LoopUnfold(flows, bank, at, m, fuel - steps);
    o := Finished(m, steps);
  }

  /** The step of the node under the cursor. */
  function StepAt(flows: Flows, bank: MessageBank, at: Cursor, m: Machine): StepResult
    requires at.name in flows && at.index < |flows[at.name]|
  {
    Step(flows[at.name][at.index], m, bank)
  }

  function Shifted(o: Outcome, n: nat): Outcome {
    o.(steps := o.steps + n)
  }

  /** One turn of the loop, stated for a cursor inside its sequence. */
  lemma LoopUnfold(flows: Flows, bank: MessageBank, at: Cursor, m: Machine, fuel: nat)
    requires at.name in flows
    ensures at.index >= |flows[at.name]| ==> Loop(flows, bank, at, m, fuel) == Finished(m, 0)
    ensures at.index < |flows[at.name]| && fuel == 0 ==> Loop(flows, bank, at, m, fuel) == OutOfFuel(at, m, 0)
    ensures at.index < |flows[at.name]| && fuel > 0 ==>
      Loop(flows, bank, at, m, fuel) ==
        match StepAt(flows, bank, at, m)
        case Blocked => AwaitingInput(at, m, 0)
        case Stepped(m', jump) =>
          match Advance(flows, at, jump)
          case Missing(t) => MissingTarget(t, m', 1)
          case At(next) => Loop(flows, bank, next, m', fuel - 1).Later()
  {
    hide Step;
  }

  /* ----- properties of whole runs -----
     These proofs hide the definition of `Step` and use only its contract
     and the two facts below. */

  lemma StepOnMessages(node: Node, m: Machine, bank: MessageBank)
    requires node.Messages?
    ensures Step(node, m, bank) == Stepped(m.(effects := m.effects + MessagesEffects(node, m.ctx, bank)), None)
  {
  }

  lemma StepOnGoto(node: Node, m: Machine, bank: MessageBank)
    requires node.Goto?
    ensures Step(node, m, bank) == Stepped(m, node.to)
  {
  }

  /** A run that ended within some budget ends the same way with any larger
      budget: the budget only cuts off runs, it never changes them. */
  lemma {:induction false} LoopFuelMonotone(flows: Flows, bank: MessageBank, at: Cursor, m: Machine, fuel: nat, more: nat)
    requires at.name in flows
    requires !Loop(flows, bank, at, m, fuel).OutOfFuel?
    requires fuel <= more
    ensures Loop(flows, bank, at, m, more) == Loop(flows, bank, at, m, fuel)
    decreases fuel
  {
    hide StepAt;
    hide Loop;
    LoopUnfold(flows, bank, at, m, fuel);
    LoopUnfold(flows, bank, at, m, more);
    if at.index < |flows[at.name]| && fuel > 0 {
      match StepAt(flows, bank, at, m)
      case Blocked =>
      case Stepped(m', jump) =>
        match Advance(flows, at, jump)
        case Missing(t) =>
        case At(next) => LoopFuelMonotone(flows, bank, next, m', fuel - 1, more - 1);
    }
  }

  /** A run only appends to what the page shows: effects already produced
      are never taken back. */
  lemma {:induction false} LoopEffectsGrow(flows: Flows, bank: MessageBank, at: Cursor, m: Machine, fuel: nat)
    requires at.name in flows
    ensures m.effects <= Loop(flows, bank, at, m, fuel).m.effects
    decreases fuel
  {
    hide Step;
    hide Loop;
    LoopUnfold(flows, bank, at, m, fuel);
    if at.index < |flows[at.name]| && fuel > 0 {
      match StepAt(flows, bank, at, m)
      case Blocked =>
      case Stepped(m', jump) =>
        StepFrame(flows[at.name][at.index], m, bank);
        match Advance(flows, at, jump)
        case Missing(t) =>
        case At(next) =>
          LoopEffectsGrow(flows, bank, next, m', fuel - 1);
    }
  }

  /** Every node of a flow graph. */
  function NodesOf(flows: Flows): set<Node> {
    set name, i | name in flows && 0 <= i < |flows[name]| :: flows[name][i]
  }

  /** The context keys the graph's input nodes may write. */
  function ContextKeys(flows: Flows): set<string> {
    set n, k | n in NodesOf(flows) && k in StepWrites(n) :: k
  }

  /** The store keys the graph's input nodes may write. */
  function StoreKeys(flows: Flows): set<string> {
    set n, k | n in NodesOf(flows) && k in StepPersists(n) :: k
  }

  lemma ChangedOnlyTrans<V>(a: map<string, V>, b: map<string, V>, c: map<string, V>, k1: set<string>, k2: set<string>, k: set<string>)
    requires ChangedOnly(a, b, k1) && ChangedOnly(b, c, k2) && k1 <= k && k2 <= k
    ensures ChangedOnly(a, c, k)
  {
  }

  /** A run changes the context only at the ids of the graph's input nodes
      (and their `Provided` flags) and writes the store only at their
      persistence keys; it never removes a key from either. */
  lemma {:induction false} LoopChangesOnlyDeclaredKeys(flows: Flows, bank: MessageBank, at: Cursor, m: Machine, fuel: nat)
    requires at.name in flows
    ensures var o := Loop(flows, bank, at, m, fuel);
      ChangedOnly(m.ctx, o.m.ctx, ContextKeys(flows)) && ChangedOnly(m.store, o.m.store, StoreKeys(flows))
    decreases fuel
  {
    hide StepAt;
    hide Loop;
    LoopUnfold(flows, bank, at, m, fuel);
    if at.index < |flows[at.name]| && fuel > 0 {
      match StepAt(flows, bank, at, m)
      case Blocked =>
      case Stepped(m', jump) =>
        StepChangesOnlyDeclaredKeys(flows, bank, at, m);
        match Advance(flows, at, jump)
        case Missing(t) =>
        case At(next) =>
          LoopChangesOnlyDeclaredKeys(flows, bank, next, m', fuel - 1);
          var o := Loop(flows, bank, next, m', fuel - 1);
          ChangedOnlyTrans(m.ctx, m'.ctx, o.m.ctx, ContextKeys(flows), ContextKeys(flows), ContextKeys(flows));
          ChangedOnlyTrans(m.store, m'.store, o.m.store, StoreKeys(flows), StoreKeys(flows), StoreKeys(flows));
    }
  }

  /** One step changes the context and the store only at keys the graph
      declares. */
  lemma StepChangesOnlyDeclaredKeys(flows: Flows, bank: MessageBank, at: Cursor, m: Machine)
    requires at.name in flows && at.index < |flows[at.name]|
    requires StepAt(flows, bank, at, m).Stepped?
    ensures ChangedOnly(m.ctx, StepAt(flows, bank, at, m).m.ctx, ContextKeys(flows))
    ensures ChangedOnly(m.store, StepAt(flows, bank, at, m).m.store, StoreKeys(flows))
  {
    hide Step;
    var node := flows[at.name][at.index];
    assert node in NodesOf(flows);
    assert StepWrites(node) <= ContextKeys(flows);
    assert StepPersists(node) <= StoreKeys(flows);
    var m' := StepAt(flows, bank, at, m).m;
    StepFrame(node, m, bank);
    ChangedOnlyTrans(m.ctx, m'.ctx, m'.ctx, StepWrites(node), {}, ContextKeys(flows));
    ChangedOnlyTrans(m.store, m'.store, m'.store, StepPersists(node), {}, StoreKeys(flows));
  }

  /** A jump to a missing sequence names a target some branch or goto of the
      graph declares. */
  lemma {:induction false} MissingTargetIsDeclared(flows: Flows, bank: MessageBank, at: Cursor, m: Machine, fuel: nat)
    requires at.name in flows
    requires Loop(flows, bank, at, m, fuel).MissingTarget?
    ensures exists n :: n in NodesOf(flows) && Loop(flows, bank, at, m, fuel).target in Targets(n)
    decreases fuel
  {
    hide Step;
    hide Loop;
    LoopUnfold(flows, bank, at, m, fuel);
    assert flows[at.name][at.index] in NodesOf(flows);
    match StepAt(flows, bank, at, m)
    case Stepped(m', jump) =>
      match Advance(flows, at, jump)
      case Missing(t) =>
      case At(next) => MissingTargetIsDeclared(flows, bank, next, m', fuel - 1);
  }

  /** The effects of a run of messages nodes, each rendered with `ctx`. */
  function MessagesRunEffects(nodes: seq<Node>, ctx: Context, bank: MessageBank): seq<Effect>
    requires forall i :: 0 <= i < |nodes| ==> nodes[i].Messages?
  {
    if |nodes| == 0 then [] else MessagesEffects(nodes[0], ctx, bank) + MessagesRunEffects(nodes[1..], ctx, bank)
  }

  /** With no jumps and no inputs, each remaining node of the sequence runs
      exactly once, in order, and the run ends at the end of the sequence
      with the context and store untouched. */
  lemma {:induction false} MessagesOnlyRun(flows: Flows, bank: MessageBank, at: Cursor, m: Machine, fuel: nat)
    requires at.name in flows && at.index <= |flows[at.name]|
    requires forall i :: at.index <= i < |flows[at.name]| ==> flows[at.name][i].Messages?
    requires fuel >= |flows[at.name]| - at.index
    ensures Loop(flows, bank, at, m, fuel) ==
      Finished(m.(effects := m.effects + MessagesRunEffects(flows[at.name][at.index..], m.ctx, bank)),
               |flows[at.name]| - at.index)
    decreases |flows[at.name]| - at.index
  {
    hide Loop;
    hide MessagesEffects;
    hide MessagesRunEffects;
    if at.index == |flows[at.name]| {
      LoopUnfold(flows, bank, at, m, fuel);
      MessagesRunEffectsStep(flows[at.name], at.index, m.ctx, bank, m.effects);
    } else {
      var m' := m.(effects := m.effects + MessagesEffects(flows[at.name][at.index], m.ctx, bank));
      LoopOnMessages(flows, bank, at, m, fuel);
      MessagesOnlyRun(flows, bank, Cursor(at.name, at.index + 1), m', fuel - 1);
      MessagesRunEffectsStep(flows[at.name], at.index, m.ctx, bank, m.effects);
    }
  }

  /** One turn of the loop on a messages node: show it and move on. */
  lemma LoopOnMessages(flows: Flows, bank: MessageBank, at: Cursor, m: Machine, fuel: nat)
    requires at.name in flows && at.index < |flows[at.name]| && fuel > 0
    requires flows[at.name][at.index].Messages?
    ensures Loop(flows, bank, at, m, fuel) ==
      Loop(flows, bank, Cursor(at.name, at.index + 1),
           m.(effects := m.effects + MessagesEffects(flows[at.name][at.index], m.ctx, bank)), fuel - 1).Later()
  {
    hide Step;
    hide Loop;
    hide MessagesEffects;
    LoopUnfold(flows, bank, at, m, fuel);
    StepOnMessages(flows[at.name][at.index], m, bank);
  }

  /** The effects of the nodes from `i` on, after `pre`: nothing at the end,
      otherwise node `i`'s effects and then the rest. */
  lemma MessagesRunEffectsStep(nodes: seq<Node>, i: nat, ctx: Context, bank: MessageBank, pre: seq<Effect>)
    requires i <= |nodes|
    requires forall j :: i <= j < |nodes| ==> nodes[j].Messages?
    ensures i == |nodes| ==> pre + MessagesRunEffects(nodes[i..], ctx, bank) == pre
    ensures i < |nodes| ==>
      (pre + MessagesRunEffects(nodes[i..], ctx, bank) ==
       (pre + MessagesEffects(nodes[i], ctx, bank)) + MessagesRunEffects(nodes[i + 1..], ctx, bank))
  {
    hide MessagesEffects;
    if i == |nodes| {
      assert nodes[i..] == [];
      assert pre + [] == pre;
    } else {
      assert nodes[i..][1..] == nodes[i + 1..];
    }
  }

  /** A sequence whose only node jumps back to itself never ends: whatever
      the budget, the run uses all of it. */
  lemma {:induction false} SelfLoopNeverEnds(flows: Flows, bank: MessageBank, name: string, m: Machine, fuel: nat)
    requires name in flows && flows[name] == [Goto(Some(name))]
    ensures Loop(flows, bank, Cursor(name, 0), m, fuel).OutOfFuel?
    ensures Loop(flows, bank, Cursor(name, 0), m, fuel).steps == fuel
    decreases fuel
  {
    hide Step;
    hide Loop;
    LoopUnfold(flows, bank, Cursor(name, 0), m, fuel);
    if fuel > 0 {
      StepOnGoto(Goto(Some(name)), m, bank);
      SelfLoopNeverEnds(flows, bank, name, m, fuel - 1);
    }
  }

  /** Three autofading lines and then a goto to a sequence that does not
      exist: the three lines are shown with a typing indicator between them,
      the screen fades, and the run stops on the missing target. */
  lemma GotoMissingAfterMessages(m: Machine)
    requires m.effects == []
    ensures
      var flows := map["start" := [Messages("intro", None, false, true), Goto(Some("X"))]];
      var bank := map["intro" := ["one", "two", "three"]];
      Run(flows, bank, "start", m, 10) ==
        MissingTarget("X", m.(effects := [OpenScreen, Line("one"), Typing, Line("two"), Typing, Line("three"), Fade]), 2)
  {
    hide MessagesEffects;
    var flows := map["start" := [Messages("intro", None, false, true), Goto(Some("X"))]];
    var bank := map["intro" := ["one", "two", "three"]];
    IntroEffects(m.ctx);
    MessagesThenMissingGoto(flows, bank, "start", m, 10);
  }

  /** A sequence of one messages node and a goto to a missing sequence shows
      the node and then ends on the missing target after two steps. */
  lemma MessagesThenMissingGoto(flows: Flows, bank: MessageBank, name: string, m: Machine, fuel: nat)
    requires name in flows && |flows[name]| == 2 && fuel >= 2
    requires flows[name][0].Messages?
    requires flows[name][1].Goto? && flows[name][1].to.Some? && flows[name][1].to.value !in flows
    ensures Run(flows, bank, name, m, fuel) ==
      MissingTarget(flows[name][1].to.value, m.(effects := m.effects + MessagesEffects(flows[name][0], m.ctx, bank)), 2)
  {
    hide Loop;
    hide MessagesEffects;
    var m' := m.(effects := m.effects + MessagesEffects(flows[name][0], m.ctx, bank));
    LoopOnMessages(flows, bank, Cursor(name, 0), m, fuel);
    LoopOnGotoMissing(flows, bank, Cursor(name, 1), m', fuel - 1);
  }

  /** A goto to a sequence the graph lacks ends the run on that target after
      one step, with the state unchanged. */
  lemma LoopOnGotoMissing(flows: Flows, bank: MessageBank, at: Cursor, m: Machine, fuel: nat)
    requires at.name in flows && at.index < |flows[at.name]| && fuel > 0
    requires flows[at.name][at.index].Goto? && flows[at.name][at.index].to.Some?
    requires flows[at.name][at.index].to.value !in flows
    ensures Loop(flows, bank, at, m, fuel) == MissingTarget(flows[at.name][at.index].to.value, m, 1)
  {
    hide Step;
    hide Loop;
    LoopUnfold(flows, bank, at, m, fuel);
    StepOnGoto(flows[at.name][at.index], m, bank);
  }

  /** The effects of the first node of the scenario above, in any context. */
  lemma IntroEffects(ctx: Context)
    ensures MessagesEffects(Messages("intro", None, false, true), ctx, map["intro" := ["one", "two", "three"]])
         == [OpenScreen, Line("one"), Typing, Line("two"), Typing, Line("three"), Fade]
  {
    hide RenderAll;
    hide Interleave;
    ThreePlainLines(BoundContext(ctx, None));
    ThreeLinesInterleaved();
  }

  lemma ThreePlainLines(ctx: Context)
    ensures RenderAll(["one", "two", "three"], ctx) == ["one", "two", "three"]
  {
    RenderPlainLine("one", ctx);
    RenderPlainLine("two", ctx);
    RenderPlainLine("three", ctx);
  }

  lemma ThreeLinesInterleaved()
    ensures Interleave(["one", "two", "three"]) == [Line("one"), Typing, Line("two"), Typing, Line("three")]
  {
    assert ["one", "two", "three"][1..] == ["two", "three"];
    assert ["two", "three"][1..] == ["three"];
  }

  /** A line without braces renders as itself in any context. */
  lemma RenderPlainLine(t: string, ctx: Context)
    requires forall i :: 0 <= i < |t| ==> t[i] != '{'
    ensures Render(t, ctx) == t
  {
    NoBraceNoHoles(t);
    RenderUnboundIsIdentity(t, ctx);
  }

  lemma {:induction false} NoBraceNoHoles(t: string)
    requires forall i :: 0 <= i < |t| ==> t[i] != '{'
    ensures HoleKeys(t) == {}
    decreases |t|
  {
    if |t| > 0 {
      NoBraceNoHoles(t[1..]);
    }
  }

  /* ----- session start ----- */

  /** `localStorage.getItem(key)` is a non-empty string. */
  predicate Stored(store: Store, key: string) {
    key in store && store[key] != ""
  }

  /** `ctx[id]` holds the stored answer under `key` when there is one, and
      is absent otherwise. */
  predicate SeededFrom(ctx: Context, id: string, store: Store, key: string) {
    && (id in ctx <==> Stored(store, key))
    && (id in ctx ==> ctx[id] == Str(store[key]))
  }

  /** `if (stored) ctx[id] = stored`. */
  function SeedOne(ctx: Context, id: string, store: Store, key: string): Context {
    if Stored(store, key) then ctx[id := Str(store[key])] else ctx
  }

  /** The context a session starts with: `name`, `ex`, `endDate` and `mood`
      from the stored answers, and nothing else. */
  function Seed(store: Store): (ctx: Context)
    ensures SeededFrom(ctx, "name", store, "afterName")
    ensures SeededFrom(ctx, "ex", store, "afterExName")
    ensures SeededFrom(ctx, "endDate", store, "afterEndDate")
    ensures SeededFrom(ctx, "mood", store, "afterMood")
    ensures ctx.Keys <= {"name", "ex", "endDate", "mood"}
  {
    var c := SeedOne(map[], "name", store, "afterName");
    var c := SeedOne(c, "ex", store, "afterExName");
    var c := SeedOne(c, "endDate", store, "afterEndDate");
    SeedOne(c, "mood", store, "afterMood")
  }

  /** `storedName ? "returning" : "firstTime"`: a stored name makes the
      session a returning one. */
  function EntryFlow(store: Store): (e: string)
    ensures e == "returning" || e == "firstTime"
    ensures e == "returning" <==> "name" in Seed(store)
  {
    if Stored(store, "afterName") then "returning" else "firstTime"
  }

  /** The page's start: seed the context, pick the entry flow, run it. */
  function Start(store: Store, flows: Flows, bank: MessageBank, events: seq<Event>, fuel: nat): (o: Outcome)
    ensures EntryFlow(store) !in flows ==> o.m.ctx == Seed(store) && o.m.store == store && o.steps == 0
  {
    Run(flows, bank, EntryFlow(store), Machine(Seed(store), store, [], events), fuel)
  }

  /** The seeded answers survive the first run unless one of the graph's
      input nodes overwrites them, and the store only gains the graph's
      persistence keys. */
  lemma StartKeepsSeed(store: Store, flows: Flows, bank: MessageBank, events: seq<Event>, fuel: nat)
    ensures var o := Start(store, flows, bank, events, fuel);
      ChangedOnly(Seed(store), o.m.ctx, ContextKeys(flows)) && ChangedOnly(store, o.m.store, StoreKeys(flows))
  {
    var e := EntryFlow(store);
    if e in flows {
      LoopChangesOnlyDeclaredKeys(flows, bank, Cursor(e, 0), Machine(Seed(store), store, [], events), fuel);
    }
  }
}

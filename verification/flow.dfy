/**
  One step of the flow interpreter (`FlowRunner.step`): dispatch on the node
  kind, show messages, wait for an input primitive to resolve, write the
  context and the persistent store, and compute the jump target of a branch
  or goto.

  The screen is reduced to the list of effects the interpreter asks for; the
  input primitives are reduced to the rule by which each accepts a user event.
 */
module Flow {
  import opened Wrappers
  import opened JsValues
  import opened Template

  /** The persistent key-value store (`localStorage`). */
  type Store = map<string, string>

  /** The message bank: message key to its list of templates. */
  type MessageBank = map<string, seq<string>>

  datatype ChoiceOption = ChoiceOption(caption: string, value: Value)

  /** A flow node, discriminated by its `type` field. Fields that only affect
      the look of a control (placeholder, skip label) are not kept. */
  datatype Node =
    | Messages(key: string, bind: Option<seq<string>>, sticky: bool, autofade: bool)
    | Input(id: string, persistKey: Option<string>)
    | RowInput(id: string, defaultOnSkip: Option<string>, persistKey: Option<string>)
    | DateInput(id: string, persistKey: Option<string>)
    | Choice(id: string, options: seq<ChoiceOption>, persistKey: Option<string>)
    | Branch(when: string, cases: Option<map<string, string>>, elseTo: Option<string>,
             ifTrue: Option<string>, ifFalse: Option<string>)
    | Goto(to: Option<string>)
    | Unknown(tag: string)
  {
    /** The kinds that wait for the user. */
    predicate IsInput() {
      Input? || RowInput? || DateInput? || Choice?
    }
  }

  /** The flow graph: sequence name to its nodes. */
  type Flows = map<string, seq<Node>>

  /** What the interpreter asks of the screen. `Typing` is the transient
      "..." indicator shown between two lines and removed before the next
      line appears; `Fade` clears the screen. The effect list is a log of
      these requests, not the screen's current content. */
  datatype Effect = OpenScreen | Line(text: string) | Typing | Fade

  /** What the user does to the current control: confirm a typed or picked
      value (Enter in a text field, "Save date"), press "Skip", or press the
      option button with the given position. */
  datatype Event = Enter(text: string) | SkipPressed | Pressed(index: nat)

  /** The value an input primitive resolves with, and whether it was skipped. */
  datatype Resolution = Resolution(value: Value, skipped: bool)

  /** The interpreter's state between steps. `events` is the user's
      remaining input, in order. */
  datatype Machine = Machine(ctx: Context, store: Store, effects: seq<Effect>, events: seq<Event>)

  function Get(ctx: Context, k: string): Option<Value> {
    if k in ctx then Some(ctx[k]) else None
  }

  /* ----- input primitives ----- */

  /** Whether, and with what, the node's primitive resolves on one event.
      Free text resolves with the trimmed text when it is not empty; the row
      input does the same or resolves with `""` as skipped; the date input
      resolves with any non-empty value; a choice resolves with the value of
      the pressed option. Every other event is ignored. */
  function Accept(node: Node, e: Event): (r: Option<Resolution>)
    requires node.IsInput()
    ensures node.Input? ==>
      && (r.Some? <==> e.Enter? && Trim(e.text) != "")
      && (r.Some? ==> r.value == Resolution(Str(Trim(e.text)), false))
    ensures node.RowInput? ==>
      && (r.Some? <==> e.SkipPressed? || (e.Enter? && Trim(e.text) != ""))
      && (r.Some? ==> r.value == if e.SkipPressed? then Resolution(Str(""), true) else Resolution(Str(Trim(e.text)), false))
    ensures node.DateInput? ==>
      && (r.Some? <==> e.Enter? && e.text != "")
      && (r.Some? ==> r.value == Resolution(Str(e.text), false))
    ensures node.Choice? ==>
      && (r.Some? <==> e.Pressed? && e.index < |node.options|)
      && (r.Some? ==> r.value == Resolution(node.options[e.index].value, false))
  {
    match node
    case Input(_, _) =>
      if e.Enter? && Trim(e.text) != "" then Some(Resolution(Str(Trim(e.text)), false)) else None
    case RowInput(_, _, _) =>
      if e.Enter? && Trim(e.text) != "" then Some(Resolution(Str(Trim(e.text)), false))
      else if e.SkipPressed? then Some(Resolution(Str(""), true))
      else None
    case DateInput(_, _) =>
      if e.Enter? && e.text != "" then Some(Resolution(Str(e.text), false)) else None
    case Choice(_, options, _) =>
      if e.Pressed? && e.index < |options| then Some(Resolution(options[e.index].value, false)) else None
  }

  /** The position of the first event from `i` on that the node's primitive
      accepts, with what it resolves. */
  function FirstAccepted(node: Node, events: seq<Event>, i: nat): (r: Option<(Resolution, nat)>)
    requires node.IsInput() && i <= |events|
    ensures r.None? <==> forall j :: i <= j < |events| ==> Accept(node, events[j]).None?
    ensures r.Some? ==>
      && i <= r.value.1 < |events|
      && Accept(node, events[r.value.1]) == Some(r.value.0)
      && forall j :: i <= j < r.value.1 ==> Accept(node, events[j]).None?
    decreases |events| - i
  {
    hide Accept;
    if i == |events| then None
    else
      match Accept(node, events[i])
      case Some(res) => Some((res, i))
      case None => FirstAccepted(node, events, i + 1)
  }

  /** Waiting on a primitive: ignored events are dropped, and the first event
      it accepts resolves it exactly once. The rest of the events are left
      for later steps. */
  function Await(node: Node, events: seq<Event>): (r: Option<(Resolution, seq<Event>)>)
    requires node.IsInput()
    ensures r.None? <==> forall i :: 0 <= i < |events| ==> Accept(node, events[i]).None?
    ensures r.Some? ==>
      var n := |events| - |r.value.1|;
      && 0 < n <= |events|
      && r.value.1 == events[n..]
      && Accept(node, events[n - 1]) == Some(r.value.0)
      && forall i :: 0 <= i < n - 1 ==> Accept(node, events[i]).None?
  {
    hide Accept;
    match FirstAccepted(node, events, 0)
    case None => None
    case Some((res, n)) => Some((res, events[n + 1..]))
  }

  /** The event `Await` resolves on is the first one the primitive accepts. */
  lemma AwaitFirst(node: Node, events: seq<Event>, i: nat)
    requires node.IsInput() && i < |events| && Accept(node, events[i]).Some?
    requires forall j :: 0 <= j < i ==> Accept(node, events[j]).None?
    ensures Await(node, events) == Some((Accept(node, events[i]).value, events[i + 1..]))
  {
    hide Accept;
    hide FirstAccepted;
    var w := Await(node, events);
    var n := |events| - |w.value.1|;
    assert !(n - 1 < i);
    assert !(i < n - 1);
  }

  /* ----- messages ----- */

  /** The context a messages node renders with: all of it, or, with `bind`,
      the bound ids that the context holds (`bind.reduce(...)`). */
  function BindFold(ctx: Context, ks: seq<string>, acc: Context): (r: Context)
    ensures forall k :: k in r <==> k in acc || (k in ctx && k in ks)
    ensures forall k :: k in r ==> r[k] == (if k in ks && k in ctx then ctx[k] else acc[k])
    decreases |ks|
  {
    if |ks| == 0 then acc
    else BindFold(ctx, ks[1..], if ks[0] in ctx then acc[ks[0] := ctx[ks[0]]] else acc)
  }

  function BoundContext(ctx: Context, bind: Option<seq<string>>): (b: Context)
    ensures bind.None? ==> b == ctx
    ensures forall k :: k in b <==> k in ctx && (bind.None? || k in bind.value)
    ensures forall k :: k in b ==> b[k] == ctx[k]
  {
    if bind.Some? then BindFold(ctx, bind.value, map[]) else ctx
  }

  /** `data[key] || []`. */
  function LinesFor(bank: MessageBank, key: string): seq<string> {
    if key in bank then bank[key] else []
  }

  function RenderAll(lines: seq<string>, ctx: Context): (r: seq<string>)
    ensures |r| == |lines|
    ensures forall i :: 0 <= i < |lines| ==> r[i] == Render(lines[i], ctx)
  {
    if |lines| == 0 then [] else [Render(lines[0], ctx)] + RenderAll(lines[1..], ctx)
  }

  /** The text lines among some effects, in order. */
  function LinesOf(es: seq<Effect>): seq<string> {
    if |es| == 0 then []
    else (if es[0].Line? then [es[0].text] else []) + LinesOf(es[1..])
  }

  lemma {:induction false} LinesOfAppend(a: seq<Effect>, b: seq<Effect>)
    ensures LinesOf(a + b) == LinesOf(a) + LinesOf(b)
    decreases |a|
  {
    if |a| == 0 {
      assert a + b == b;
    } else {
      assert (a + b)[0] == a[0];
      assert (a + b)[1..] == a[1..] + b;
      LinesOfAppend(a[1..], b);
    }
  }

  /** The sequential reveal: each line shown in turn, with a typing indicator
      between consecutive lines and none after the last. */
  function Interleave(lines: seq<string>): (r: seq<Effect>)
    ensures LinesOf(r) == lines
    ensures |lines| > 0 ==> |r| == 2 * |lines| - 1
    ensures forall i :: 0 <= i < |r| ==> (r[i].Line? <==> i % 2 == 0) && (r[i].Typing? <==> i % 2 == 1)
    decreases |lines|
  {
    if |lines| == 0 then []
    else if |lines| == 1 then [Line(lines[0])]
    else
      var rest := Interleave(lines[1..]);
      LinesOfAppend([Line(lines[0]), Typing], rest);
      [Line(lines[0]), Typing] + rest
  }

  /** `loadMessagesInto`: a fresh screen, then the reveal. */
  function Reveal(lines: seq<string>): seq<Effect> {
    [OpenScreen] + Interleave(lines)
  }

  /** The effects of a messages node: its lines rendered with the bound
      context and revealed on a fresh screen, then a fade when the node
      asks for one and is not sticky. */
  function MessagesEffects(node: Node, ctx: Context, bank: MessageBank): (es: seq<Effect>)
    requires node.Messages?
    ensures |es| > 0 && es[0] == OpenScreen
    ensures Fade in es <==> node.autofade && !node.sticky
    ensures Fade in es ==> es[|es| - 1] == Fade && Fade !in es[..|es| - 1]
    ensures es[1..|es| - (if Fade in es then 1 else 0)]
      == Interleave(RenderAll(LinesFor(bank, node.key), BoundContext(ctx, node.bind)))
  {
    hide RenderAll;
    hide BoundContext;
    var lines := RenderAll(LinesFor(bank, node.key), BoundContext(ctx, node.bind));
    var tail: seq<Effect> := if node.sticky then [] else if node.autofade then [Fade] else [];
    NoFadeInInterleave(lines);
    assert (Reveal(lines) + tail)[1..|Reveal(lines)|] == Interleave(lines);
    Reveal(lines) + tail
  }

  /** The revealed lines hold no fade. */
  lemma NoFadeInInterleave(lines: seq<string>)
    ensures Fade !in Interleave(lines)
  {
  }

  /** The text a messages node shows is its bank entry, line by line, each
      rendered with the node's bound context. */
  lemma MessagesShowRenderedLines(node: Node, ctx: Context, bank: MessageBank)
    requires node.Messages?
    ensures LinesOf(MessagesEffects(node, ctx, bank)) == RenderAll(LinesFor(bank, node.key), BoundContext(ctx, node.bind))
  {
    hide RenderAll;
    hide BoundContext;
    hide Interleave;
    var lines := RenderAll(LinesFor(bank, node.key), BoundContext(ctx, node.bind));
    var tail: seq<Effect> := if node.sticky then [] else if node.autofade then [Fade] else [];
    LinesOfAppend([OpenScreen], Interleave(lines));
    LinesOfAppend(Reveal(lines), tail);
  }

  /* ----- input nodes ----- */

  /** `node.defaultOnSkip || "them"`. */
  function SkipDefault(d: Option<string>): string {
    if Present(d) then d.value else "them"
  }

  /** The context keys an input node writes. */
  function WrittenIds(node: Node): set<string>
    requires node.IsInput()
  {
    if node.RowInput? then {node.id, node.id + "Provided"} else {node.id}
  }

  /** The store keys an input node may write: its `persistKey` when set, and
      the fixed keys for the name and ex answers. */
  function PersistTargets(node: Node): set<string>
    requires node.IsInput()
  {
    (if Present(node.persistKey) then {node.persistKey.value} else {})
    + (if node.Input? && node.id == "name" then {"afterName"} else {})
    + (if node.RowInput? && node.id == "ex" then {"afterExName"} else {})
  }

  /** `if (key) localStorage.setItem(key, String(v))`. */
  function Persist(store: Store, key: Option<string>, v: string): Store {
    if Present(key) then store[key.value := v] else store
  }

  /** A map (the context or the store) changed only at `keys`, and lost nothing. */
  predicate ChangedOnly<V(==)>(before: map<string, V>, after: map<string, V>, keys: set<string>) {
    && before.Keys <= after.Keys
    && forall k :: k in after && k !in keys ==> k in before && after[k] == before[k]
  }

  /** What an input node does once its primitive has resolved: it stores the
      answer under its id (a skipped row input stores its default and records
      that nothing was provided), and persists the answer. */
  function ApplyAnswer(node: Node, ctx: Context, store: Store, res: Resolution): (r: (Context, Store))
    requires node.IsInput()
    ensures r.0.Keys == ctx.Keys + WrittenIds(node)
    ensures forall k :: k in ctx && k !in WrittenIds(node) ==> r.0[k] == ctx[k]
    ensures !node.RowInput? ==> r.0[node.id] == res.value
    ensures node.RowInput? ==>
      && r.0[node.id] == (if res.skipped then Str(SkipDefault(node.defaultOnSkip)) else res.value)
      && r.0[node.id + "Provided"] == Bool(!res.skipped)
    ensures ChangedOnly(store, r.1, PersistTargets(node))
    ensures forall k :: k in PersistTargets(node) ==> k in r.1 && r.1[k] == ToJsString(r.0[node.id])
  {
    match node
    case Input(id, pk) =>
      var s := ToJsString(res.value);
      (ctx[id := res.value], Persist(Persist(store, pk, s), if id == "name" then Some("afterName") else None, s))
    case RowInput(id, d, pk) =>
      var finalVal := if res.skipped then Str(SkipDefault(d)) else res.value;
      var c := ctx[id := finalVal][id + "Provided" := Bool(!res.skipped)];
      assert c[id] == finalVal by { assert id != id + "Provided"; }
      var s := ToJsString(finalVal);
      (c, Persist(Persist(store, pk, s), if id == "ex" then Some("afterExName") else None, s))
    case DateInput(id, pk) =>
      (ctx[id := res.value], Persist(store, pk, ToJsString(res.value)))
    case Choice(id, _, pk) =>
      (ctx[id := res.value], Persist(store, pk, ToJsString(res.value)))
  }

  /* ----- branch and goto ----- */

  /** The property key `cases[v]` reads: `String(v)`, or `"undefined"` when
      the context has no value. */
  function PropertyKey(v: Option<Value>): string {
    match v
    case None => "undefined"
    case Some(x) => ToJsString(x)
  }

  /** `cases[key]` is a truthy string. */
  predicate CaseHit(cases: map<string, string>, key: string) {
    key in cases && cases[key] != ""
  }

  function OptSet(o: Option<string>): set<string> {
    if o.Some? then {o.value} else {}
  }

  /** Every sequence name a node declares as a jump target. */
  function Targets(node: Node): set<string> {
    match node
    case Branch(_, cases, elseTo, ifTrue, ifFalse) =>
      (if cases.Some? then cases.value.Values else {}) + OptSet(elseTo) + OptSet(ifTrue) + OptSet(ifFalse)
    case Goto(to) => OptSet(to)
    case _ => {}
  }

  /** The jump a branch yields: with `cases`, `cases[ctx[when]] || else`;
      otherwise `ifTrue` or `ifFalse` by the truthiness of `ctx[when]`. */
  function BranchTarget(node: Node, ctx: Context): (r: Option<string>)
    requires node.Branch?
    ensures r.Some? ==> r.value in Targets(node)
    ensures node.cases.Some? ==>
      (r.None? <==> node.elseTo.None? && !CaseHit(node.cases.value, PropertyKey(Get(ctx, node.when))))
    ensures node.cases.Some? && r.Some? && r.value == "" ==> r == node.elseTo
    ensures node.cases.Some? ==> var key := PropertyKey(Get(ctx, node.when));
      if CaseHit(node.cases.value, key) then r == Some(node.cases.value[key]) else r == node.elseTo
    ensures node.cases.None? && Truthy(Get(ctx, node.when)) ==> r == node.ifTrue
    ensures node.cases.None? && !Truthy(Get(ctx, node.when)) ==> r == node.ifFalse
  {
    var v := Get(ctx, node.when);
    if node.cases.Some? then
      var key := PropertyKey(v);
      if CaseHit(node.cases.value, key) then Some(node.cases.value[key]) else node.elseTo
    else if Truthy(v) then node.ifTrue
    else node.ifFalse
  }

  /* ----- the step ----- */

  /** `Stepped` carries the new state and the jump (`None` for a step that
      returns no string); `Blocked` means the node's primitive never resolves
      on the remaining events. */
  datatype StepResult = Stepped(m: Machine, jump: Option<string>) | Blocked

  /** The context keys a node may write. */
  function StepWrites(node: Node): set<string> {
    if node.IsInput() then WrittenIds(node) else {}
  }

  /** The store keys a node may write. */
  function StepPersists(node: Node): set<string> {
    if node.IsInput() then PersistTargets(node) else {}
  }

  lemma AwaitResolvesFirst(node: Node, events: seq<Event>)
    requires node.IsInput()
    ensures forall i ::
      (0 <= i < |events| && Accept(node, events[i]).Some? && (forall j :: 0 <= j < i ==> Accept(node, events[j]).None?)) ==>
        Await(node, events) == Some((Accept(node, events[i]).value, events[i + 1..]))
  {
    hide Accept;
    hide Await;
    forall i | 0 <= i < |events| && Accept(node, events[i]).Some? &&
      (forall j :: 0 <= j < i ==> Accept(node, events[j]).None?)
      ensures Await(node, events) == Some((Accept(node, events[i]).value, events[i + 1..]))
    {
      AwaitFirst(node, events, i);
    }
  }

  /** An input step: wait for the primitive, apply its answer, fade. */
  function StepInput(node: Node, m: Machine): (r: Option<Machine>)
    requires node.IsInput()
    ensures r.None? <==> forall i :: 0 <= i < |m.events| ==> Accept(node, m.events[i]).None?
    ensures r.Some? ==> ChangedOnly(m.ctx, r.value.ctx, WrittenIds(node)) && WrittenIds(node) <= r.value.ctx.Keys
    ensures r.Some? ==> ChangedOnly(m.store, r.value.store, PersistTargets(node))
    ensures r.Some? ==> r.value.effects == m.effects + [Fade]
    ensures r.Some? ==> |r.value.events| < |m.events| && r.value.events == m.events[|m.events| - |r.value.events|..]
    ensures forall i ::
      (0 <= i < |m.events| && Accept(node, m.events[i]).Some? && (forall j :: 0 <= j < i ==> Accept(node, m.events[j]).None?)) ==>
        var (ctx', store') := ApplyAnswer(node, m.ctx, m.store, Accept(node, m.events[i]).value);
        r == Some(Machine(ctx', store', m.effects + [Fade], m.events[i + 1..]))
  {
    hide Accept;
    hide ApplyAnswer;
    AwaitResolvesFirst(node, m.events);
    match Await(node, m.events)
    case None => None
    case Some((res, rest)) =>
      var (ctx', store') := ApplyAnswer(node, m.ctx, m.store, res);
      Some(Machine(ctx', store', m.effects + [Fade], rest))
  }

  /** `FlowRunner.step`. */
  function Step(node: Node, m: Machine, bank: MessageBank): (r: StepResult)
    ensures r.Blocked? <==> node.IsInput() && forall i :: 0 <= i < |m.events| ==> Accept(node, m.events[i]).None?
    ensures r.Stepped? && r.jump.Some? ==> (node.Branch? || node.Goto?) && r.jump.value in Targets(node)
  {
    hide MessagesEffects;
    hide StepInput;
    hide Accept;
    match node
    case Messages(_, _, _, _) =>
      Stepped(m.(effects := m.effects + MessagesEffects(node, m.ctx, bank)), None)
    case Branch(_, _, _, _, _) =>
      Stepped(m, BranchTarget(node, m.ctx))
    case Goto(to) =>
      Stepped(m, to)
    case Unknown(_) =>
      Stepped(m, None)
    case _ =>
      match StepInput(node, m)
      case None => Blocked
      case Some(m') => Stepped(m', None)
  }

  /* ----- properties of single steps ----- */

  /** A step writes the context only at the node's ids and the store only at
      its persistence keys, never removes a key, only appends to the
      effects, and consumes events only when the node is an input. */
  lemma StepFrame(node: Node, m: Machine, bank: MessageBank)
    requires Step(node, m, bank).Stepped?
    ensures var r := Step(node, m, bank);
      && ChangedOnly(m.ctx, r.m.ctx, StepWrites(node))
      && ChangedOnly(m.store, r.m.store, StepPersists(node))
      && m.effects <= r.m.effects
      && (!node.IsInput() ==> r.m.events == m.events)
  {
    hide MessagesEffects;
    hide StepInput;
    hide Accept;
    if node.IsInput() {
      assert StepInput(node, m).Some?;
    } else {
      assert m.effects <= Step(node, m, bank).m.effects;
    }
  }

  /** A row input stores the trimmed text and `true` when the first event it
      accepts is a confirmed non-empty text, and its skip default (`"them"`
      when none is set) and `false` when that event is the skip button. */
  lemma RowInputAnswer(node: Node, m: Machine, bank: MessageBank)
    requires node.RowInput?
    requires exists i :: 0 <= i < |m.events| && Accept(node, m.events[i]).Some?
    ensures var r := Step(node, m, bank);
      && r.Stepped? && r.jump.None?
      && var n := |m.events| - |r.m.events|;
      && 0 < n
      && (m.events[n - 1].SkipPressed? ==>
            r.m.ctx[node.id] == Str(SkipDefault(node.defaultOnSkip))
            && r.m.ctx[node.id + "Provided"] == Bool(false))
      && (m.events[n - 1].Enter? ==>
            Trim(m.events[n - 1].text) != ""
            && r.m.ctx[node.id] == Str(Trim(m.events[n - 1].text))
            && r.m.ctx[node.id + "Provided"] == Bool(true))
  {
    hide Step;
    hide Await;
    hide ApplyAnswer;
    hide Accept;
    hide Trim;
    hide StepInput;
    hide MessagesEffects;
    StepOnInput(node, m, bank);
    var (res, rest) := Await(node, m.events).value;
    var n := |m.events| - |rest|;
    AcceptRowInput(node, m.events[n - 1]);
    ApplyRowInput(node, m.ctx, m.store, res);
  }

  lemma ApplyRowInput(node: Node, ctx: Context, store: Store, res: Resolution)
    requires node.RowInput?
    ensures var c := ApplyAnswer(node, ctx, store, res).0;
      && node.id in c && node.id + "Provided" in c
      && c[node.id] == (if res.skipped then Str(SkipDefault(node.defaultOnSkip)) else res.value)
      && c[node.id + "Provided"] == Bool(!res.skipped)
  {
    hide ApplyAnswer;
  }

  lemma AcceptRowInput(node: Node, e: Event)
    requires node.RowInput?
    ensures var a := Accept(node, e);
      && (e.SkipPressed? ==> a == Some(Resolution(Str(""), true)))
      && (e.Enter? && a.Some? ==> Trim(e.text) != "" && a == Some(Resolution(Str(Trim(e.text)), false)))
      && (e.Enter? ==> (a.Some? <==> Trim(e.text) != ""))
      && (e.Pressed? ==> a.None?)
  {
  }

  /** An input node whose primitive resolves stores the answer, fades the
      screen, and consumes the events up to the accepted one. */
  lemma StepOnInput(node: Node, m: Machine, bank: MessageBank)
    requires node.IsInput() && exists i :: 0 <= i < |m.events| && Accept(node, m.events[i]).Some?
    ensures Await(node, m.events).Some?
    ensures var (res, rest) := Await(node, m.events).value;
      var (ctx', store') := ApplyAnswer(node, m.ctx, m.store, res);
      Step(node, m, bank) == Stepped(Machine(ctx', store', m.effects + [Fade], rest), None)
  {
    hide Await;
    hide ApplyAnswer;
  }

  /** A messages node with `bind` renders with exactly the bound ids the
      context holds: a template whose placeholders are all bound renders as
      with the full context, and one that names no bound id keeps all its
      placeholders verbatim. */
  lemma BindRestrictsRendering(ctx: Context, ks: seq<string>, t: string)
    ensures (forall k :: k in HoleKeys(t) ==> k in ks) ==>
      Render(t, BoundContext(ctx, Some(ks))) == Render(t, ctx)
    ensures (forall k :: k in HoleKeys(t) ==> k !in ks) ==>
      Render(t, BoundContext(ctx, Some(ks))) == t
  {
    var b := BoundContext(ctx, Some(ks));
    if forall k :: k in HoleKeys(t) ==> k in ks {
      forall k | k in HoleKeys(t) ensures Substitute(k, b) == Substitute(k, ctx) {
        assert k in b <==> k in ctx;
      }
      RenderReadsOnlyHoleKeys(t, b, ctx);
    }
    if forall k :: k in HoleKeys(t) ==> k !in ks {
      RenderUnboundIsIdentity(t, b);
    }
  }
}

/**
 `decide` of the policy engine: the first output whose trigger fires, and what that means in terms
 of the inlined wires.
 */
module PolicyDecision {
  import opened PolicyEngine
  import opened Options

  const DEFAULT_DENY := Decision("deny_invalid_access", "default_deny", "none", [])

  // ---------- Triggers ----------

  /** trim_start_matches("NOT("): every leading occurrence goes. */
  function TrimNot(s: string): string {
    if StartsWith(s, "NOT(") then TrimNot(s[4..]) else s
  }

  /** trim_end_matches(")"): every trailing parenthesis goes. */
  function TrimClose(s: string): string {
    if s != [] && s[|s| - 1] == ')' then TrimClose(s[..|s| - 1]) else s
  }

  predicate IsNegated(trigger: string) {
    StartsWith(trigger, "NOT(")
  }

  /** The wire a trigger names. */
  function Target(trigger: string): string {
    if IsNegated(trigger) then TrimClose(TrimNot(trigger)) else trigger
  }

  /** Whether the trigger fires, with the trace of its wire. */
  function Fire(chip: Chip, trigger: string, ctx: Context, depth: nat): Option<Outcome> {
    match Eval(chip, Target(trigger), ctx, depth)
    case None => None
    case Some(o) => Some(Outcome(o.value != IsNegated(trigger), o.chain))
  }

  function Verdict(entry: (string, OutputAction), chain: seq<string>): Decision {
    Decision(entry.0, entry.1.action, entry.1.trigger, chain)
  }

  function DecideEntries(chip: Chip, entries: OutputDefinition, ctx: Context, depth: nat): Option<Decision> {
    if entries == [] then Some(DEFAULT_DENY)
    else match Fire(chip, entries[0].1.trigger, ctx, depth)
      case None => None
      case Some(o) =>
        if o.value then Some(Verdict(entries[0], o.chain)) else DecideEntries(chip, entries[1..], ctx, depth)
  }

  /** All outputs in list order, each in key order. */
  function Flatten(outputs: seq<OutputDefinition>): OutputDefinition {
    if outputs == [] then [] else outputs[0] + Flatten(outputs[1..])
  }

  function Decide(chip: Chip, ctx: Context, depth: nat): Option<Decision> {
    DecideEntries(chip, Flatten(chip.outputs), ctx, depth)
  }

  lemma {:induction false} DecideConcat(chip: Chip, a: OutputDefinition, b: OutputDefinition, ctx: Context, depth: nat)
    ensures DecideEntries(chip, a + b, ctx, depth) ==
      if forall i :: 0 <= i < |a| ==> Fire(chip, a[i].1.trigger, ctx, depth).Some? && !Fire(chip, a[i].1.trigger, ctx, depth).value.value
      then DecideEntries(chip, b, ctx, depth) else DecideEntries(chip, a, ctx, depth)
  {
    if a == [] {
      assert a + b == b;
    } else {
      assert (a + b)[1..] == a[1..] + b && (a + b)[0] == a[0];
      DecideConcat(chip, a[1..], b, ctx, depth);
      var f := Fire(chip, a[0].1.trigger, ctx, depth);
      if f.Some? && !f.value.value {
        assert forall i :: 0 <= i < |a[1..]| ==> a[1..][i] == a[i + 1];
      }
    }
  }

  lemma FlattenFrom(outputs: seq<OutputDefinition>, i: nat)
    requires i < |outputs|
    ensures Flatten(outputs[i..]) == outputs[i] + Flatten(outputs[i + 1..])
  {
    assert outputs[i..][1..] == outputs[i + 1..];
  }

  lemma FlattenNone(outputs: seq<OutputDefinition>)
    ensures Flatten(outputs[|outputs|..]) == []
  {
  }

  lemma EntryOfRow(chip: Chip, out: OutputDefinition, j: nat, rest: OutputDefinition, ctx: Context, depth: nat)
    requires j < |out|
    ensures DecideEntries(chip, out[j..] + rest, ctx, depth) == DecideEntries(chip, [out[j]] + (out[j + 1..] + rest), ctx, depth)
  {
    assert out[j..] + rest == [out[j]] + (out[j + 1..] + rest);
  }

  /** decide, with the nested loops of the source; depth is any recursion bound under which it finishes. */
  method RunDecide(chip: Chip, ctx: Context, ghost depth: nat) returns (d: Decision)
    requires Decide(chip, ctx, depth).Some?
    ensures d == Decide(chip, ctx, depth).value
  {
    ghost var goal := Decide(chip, ctx, depth);
    assert chip.outputs[0..] == chip.outputs;
    hide Flatten, Eval;
    for i := 0 to |chip.outputs|
      invariant DecideEntries(chip, Flatten(chip.outputs[i..]), ctx, depth) == goal
    {
      var out := chip.outputs[i];
      ghost var rest := Flatten(chip.outputs[i + 1..]);
      FlattenFrom(chip.outputs, i);
      assert out[0..] == out;
      for j := 0 to |out|
        invariant DecideEntries(chip, out[j..] + rest, ctx, depth) == goal
      {
        var act := out[j].1;
        EntryOfRow(chip, out, j, rest, ctx, depth);
        var chain := new Chain();
        var fired;
        if IsNegated(act.trigger) {
          var inner := TrimClose(TrimNot(act.trigger));
          fired := EvalWireRec(chip, inner, ctx, chain, depth);
          fired := !fired;
        } else {
          fired := EvalWireRec(chip, act.trigger, ctx, chain, depth);
        }
        assert [] + Eval(chip, Target(act.trigger), ctx, depth).value.chain == chain.items;
        if fired {
          return Decision(out[j].0, act.action, act.trigger, chain.items);
        }
      }
      assert out[|out|..] + rest == rest;
    }
    FlattenNone(chip.outputs);
    d := DEFAULT_DENY;
  }

  // ---------- First match under the declarative meaning ----------

  /** The conjunction of the fully inlined wire. */
  ghost predicate Meaning(chip: Chip, id: string, ctx: Context)
    requires Inline(chip, id, Bound(chip)).Some?
  {
    AllHold(Inline(chip, id, Bound(chip)).value.atoms, ctx)
  }

  ghost predicate Triggered(chip: Chip, trigger: string, ctx: Context)
    requires !Cyclic(chip)
  {
    AcyclicTerminates(chip, Target(trigger));
    Meaning(chip, Target(trigger), ctx) != IsNegated(trigger)
  }

  lemma FireIsTriggered(chip: Chip, trigger: string, ctx: Context)
    requires !Cyclic(chip)
    ensures var f := Fire(chip, trigger, ctx, Bound(chip)); f.Some? && f.value.value == Triggered(chip, trigger, ctx)
  {
    AcyclicTerminates(chip, Target(trigger));
    EvalMeaning(chip, Target(trigger), ctx, Bound(chip));
  }

  /** i is the first entry whose trigger holds. */
  ghost predicate FirstTriggered(chip: Chip, entries: OutputDefinition, ctx: Context, i: nat)
    requires !Cyclic(chip)
  {
    && i < |entries| && Triggered(chip, entries[i].1.trigger, ctx)
    && forall j :: 0 <= j < i ==> !Triggered(chip, entries[j].1.trigger, ctx)
  }

  ghost predicate NoneTriggered(chip: Chip, entries: OutputDefinition, ctx: Context)
    requires !Cyclic(chip)
  {
    forall j :: 0 <= j < |entries| ==> !Triggered(chip, entries[j].1.trigger, ctx)
  }

  /** d names the entry and carries the trace of its wire. */
  ghost predicate IsVerdict(chip: Chip, e: (string, OutputAction), ctx: Context, d: Decision) {
    var o := Eval(chip, Target(e.1.trigger), ctx, Bound(chip));
    o.Some? && d == Verdict(e, o.value.chain)
  }

  /** The first entry whose trigger holds, or the default denial when there is none. */
  ghost predicate FirstMatch(chip: Chip, entries: OutputDefinition, ctx: Context, d: Decision)
    requires !Cyclic(chip)
  {
    if NoneTriggered(chip, entries, ctx) then d == DEFAULT_DENY
    else exists i: nat :: i < |entries| && FirstTriggered(chip, entries, ctx, i) && IsVerdict(chip, entries[i], ctx, d)
  }

  lemma {:induction false} FirstEntry(chip: Chip, entries: OutputDefinition, ctx: Context)
    requires !Cyclic(chip)
    ensures DecideEntries(chip, entries, ctx, Bound(chip)).Some?
    ensures FirstMatch(chip, entries, ctx, DecideEntries(chip, entries, ctx, Bound(chip)).value)
  {
    if entries != [] {
      hide Triggered, Eval, Target, Cyclic;
      var rest := entries[1..];
      FirstEntry(chip, rest, ctx);
      FireIsTriggered(chip, entries[0].1.trigger, ctx);
      if Triggered(chip, entries[0].1.trigger, ctx) {
        assert FirstTriggered(chip, entries, ctx, 0);
      } else {
        ShiftFirst(chip, entries, ctx, DecideEntries(chip, rest, ctx, Bound(chip)).value);
      }
    }
  }

  lemma ShiftFirst(chip: Chip, entries: OutputDefinition, ctx: Context, d: Decision)
    requires !Cyclic(chip) && entries != [] && !Triggered(chip, entries[0].1.trigger, ctx)
    requires FirstMatch(chip, entries[1..], ctx, d)
    ensures FirstMatch(chip, entries, ctx, d)
  {
    hide Triggered, IsVerdict, Cyclic;
    var rest := entries[1..];
    if NoneTriggered(chip, rest, ctx) {
      forall j | 0 <= j < |entries| ensures !Triggered(chip, entries[j].1.trigger, ctx) {
        assert j > 0 ==> entries[j] == rest[j - 1];
      }
    } else {
      var i: nat :| i < |rest| && FirstTriggered(chip, rest, ctx, i) && IsVerdict(chip, rest[i], ctx, d);
      forall j | 0 <= j < i + 1 ensures !Triggered(chip, entries[j].1.trigger, ctx) {
        assert j > 0 ==> entries[j] == rest[j - 1];
      }
      assert entries[i + 1] == rest[i];
      assert FirstTriggered(chip, entries, ctx, i + 1);
    }
  }

  /**
   On a chip without reference cycles decide gives the first output, in list and key order, whose
   trigger holds of the inlined wires, and the default denial exactly when there is none.
   */
  lemma DecideFirstMatch(chip: Chip, ctx: Context)
    requires !Cyclic(chip)
    ensures Decide(chip, ctx, Bound(chip)).Some?
    ensures FirstMatch(chip, Flatten(chip.outputs), ctx, Decide(chip, ctx, Bound(chip)).value)
  {
    FirstEntry(chip, Flatten(chip.outputs), ctx);
  }

  // ---------- Monotonicity ----------

  /** Every bit true under c1 is true under c2. */
  ghost predicate FewerBits(c1: Context, c2: Context) {
    forall id :: BitEval(id, c1) ==> BitEval(id, c2)
  }

  lemma AggregateMonotone(policies: seq<string>, aggregator: string, c1: Context, c2: Context)
    requires FewerBits(c1, c2) && Aggregate(policies, aggregator, c1)
    ensures Aggregate(policies, aggregator, c2)
  {
    hide BitEval;
  }

  /** Turning bits on can only make positive triggers fire and only make NOT triggers stop firing. */
  lemma TriggersMonotone(chip: Chip, trigger: string, c1: Context, c2: Context)
    requires !Cyclic(chip) && FewerBits(c1, c2)
    ensures !IsNegated(trigger) && Triggered(chip, trigger, c1) ==> Triggered(chip, trigger, c2)
    ensures IsNegated(trigger) && Triggered(chip, trigger, c2) ==> Triggered(chip, trigger, c1)
  {
    hide BitEval, Aggregate;
    AcyclicTerminates(chip, Target(trigger));
    var atoms := Inline(chip, Target(trigger), Bound(chip)).value.atoms;
    forall a | a in atoms && Holds(a, c1)
      ensures Holds(a, c2)
    {
      if a.Group? {
        AggregateMonotone(a.policies, a.aggregator, c1, c2);
      }
    }
  }

  // ---------- Unrelated wires ----------

  /** S is closed under the references of the chip. */
  ghost predicate ClosedUnder(chip: Chip, S: set<string>) {
    forall x, y :: x in S && Refers(chip, x, y) ==> y in S
  }

  ghost predicate SameOn(a: Chip, b: Chip, S: set<string>) {
    forall x :: x in S ==> FindWire(a.wiring, x) == FindWire(b.wiring, x)
  }

  lemma {:induction false} EvalSame(a: Chip, b: Chip, S: set<string>, id: string, ctx: Context, depth: nat)
    requires ClosedUnder(a, S) && SameOn(a, b, S) && id in S
    ensures Eval(a, id, ctx, depth) == Eval(b, id, ctx, depth)
    decreases depth, 1, 0
  {
    hide BitEval;
    if depth > 0 {
      assert FindWire(a.wiring, id) == FindWire(b.wiring, id);
      match FindWire(a.wiring, id)
      case None =>
      case Some(w) =>
        match w.structure
        case Sequence(sequence) =>
          forall y | y in sequence && IsWireName(y) ensures y in S { assert Refers(a, id, y); }
          EvalSequenceSame(a, b, S, sequence, ctx, depth - 1);
        case Parallel(policies, aggregator) =>
    }
  }

  lemma {:induction false} EvalSequenceSame(a: Chip, b: Chip, S: set<string>, xs: seq<string>, ctx: Context, depth: nat)
    requires ClosedUnder(a, S) && SameOn(a, b, S) && forall y :: y in xs && IsWireName(y) ==> y in S
    ensures EvalSequence(a, xs, ctx, depth) == EvalSequence(b, xs, ctx, depth)
    decreases depth, 2, |xs|
  {
    hide BitEval, ClosedUnder, SameOn;
    if xs != [] {
      EvalSequenceSame(a, b, S, xs[1..], ctx, depth);
      if IsWireName(xs[0]) {
        EvalSame(a, b, S, xs[0], ctx, depth);
      }
    }
  }

  lemma {:induction false} DecideSame(a: Chip, b: Chip, S: set<string>, entries: OutputDefinition, ctx: Context, depth: nat)
    requires ClosedUnder(a, S) && SameOn(a, b, S)
    requires forall i :: 0 <= i < |entries| ==> Target(entries[i].1.trigger) in S
    ensures DecideEntries(a, entries, ctx, depth) == DecideEntries(b, entries, ctx, depth)
  {
    hide ClosedUnder, SameOn, Eval, Target;
    if entries != [] {
      assert Target(entries[0].1.trigger) in S;
      EvalSame(a, b, S, Target(entries[0].1.trigger), ctx, depth);
      assert forall i :: 0 <= i < |entries[1..]| ==> entries[1..][i] == entries[i + 1];
      DecideSame(a, b, S, entries[1..], ctx, depth);
    }
  }

  lemma {:induction false} FindWireInsert(wiring: seq<Wire>, k: nat, w: Wire, x: string)
    requires k <= |wiring|
    requires x != w.id || FindWire(wiring[..k], x).Some?
    ensures FindWire(wiring[..k] + [w] + wiring[k..], x) == FindWire(wiring, x)
  {
    var whole := wiring[..k] + [w] + wiring[k..];
    if k == 0 {
      assert whole[1..] == wiring;
    } else {
      assert whole[0] == wiring[0] && whole[1..] == wiring[1..][..k - 1] + [w] + wiring[1..][k - 1..];
      assert wiring[..k][1..] == wiring[1..][..k - 1];
      if wiring[0].id != x {
        FindWireInsert(wiring[1..], k - 1, w, x);
      }
    }
  }

  /**
   Inserting a wire anywhere changes no decision if its id lies outside some reference-closed set
   holding every trigger's wire (no trigger reaches it), or an earlier wire has the same id.
   */
  lemma UnrelatedWire(chip: Chip, k: nat, w: Wire, S: set<string>, ctx: Context, depth: nat)
    requires k <= |chip.wiring| && ClosedUnder(chip, S)
    requires forall i :: 0 <= i < |Flatten(chip.outputs)| ==> Target(Flatten(chip.outputs)[i].1.trigger) in S
    requires w.id !in S || FindWire(chip.wiring[..k], w.id).Some?
    ensures Decide(chip.(wiring := chip.wiring[..k] + [w] + chip.wiring[k..]), ctx, depth) == Decide(chip, ctx, depth)
  {
    var grown := chip.(wiring := chip.wiring[..k] + [w] + chip.wiring[k..]);
    forall x | x in S ensures FindWire(chip.wiring, x) == FindWire(grown.wiring, x) {
      FindWireInsert(chip.wiring, k, w, x);
    }
    DecideSame(chip, grown, S, Flatten(chip.outputs), ctx, depth);
  }

  /** No wire of S lists the bit. */
  ghost predicate BitUnread(chip: Chip, S: set<string>, bit: string) {
    forall x :: x in S && FindWire(chip.wiring, x).Some? ==>
      match FindWire(chip.wiring, x).value.structure
      case Sequence(sequence) => bit !in sequence
      case Parallel(policies, _) => bit !in policies
  }

  ghost predicate SameBitsBut(c1: Context, c2: Context, bit: string) {
    forall id :: id != bit ==> BitEval(id, c1) == BitEval(id, c2)
  }

  lemma {:induction false} EvalIgnoresBit(chip: Chip, S: set<string>, bit: string, id: string, c1: Context, c2: Context, depth: nat)
    requires ClosedUnder(chip, S) && BitUnread(chip, S, bit) && SameBitsBut(c1, c2, bit) && id in S
    ensures Eval(chip, id, c1, depth) == Eval(chip, id, c2, depth)
    decreases depth, 1, 0
  {
    hide BitEval;
    if depth > 0 {
      match FindWire(chip.wiring, id)
      case None =>
      case Some(w) =>
        match w.structure
        case Sequence(sequence) =>
          forall y | y in sequence && IsWireName(y) ensures y in S { assert Refers(chip, id, y); }
          SequenceIgnoresBit(chip, S, bit, sequence, c1, c2, depth - 1);
        case Parallel(policies, aggregator) =>
    }
  }

  lemma {:induction false} SequenceIgnoresBit(chip: Chip, S: set<string>, bit: string, xs: seq<string>, c1: Context, c2: Context, depth: nat)
    requires ClosedUnder(chip, S) && BitUnread(chip, S, bit) && SameBitsBut(c1, c2, bit) && bit !in xs
    requires forall y :: y in xs && IsWireName(y) ==> y in S
    ensures EvalSequence(chip, xs, c1, depth) == EvalSequence(chip, xs, c2, depth)
    decreases depth, 2, |xs|
  {
    hide BitEval, ClosedUnder, BitUnread;
    if xs != [] {
      SequenceIgnoresBit(chip, S, bit, xs[1..], c1, c2, depth);
      assert xs[0] in xs;
      if IsWireName(xs[0]) {
        EvalIgnoresBit(chip, S, bit, xs[0], c1, c2, depth);
      }
    }
  }

  /** A bit that no wire reachable from a trigger lists has no influence on the decision. */
  lemma {:induction false} DecideIgnoresBit(chip: Chip, S: set<string>, bit: string, entries: OutputDefinition, c1: Context, c2: Context, depth: nat)
    requires ClosedUnder(chip, S) && BitUnread(chip, S, bit) && SameBitsBut(c1, c2, bit)
    requires forall i :: 0 <= i < |entries| ==> Target(entries[i].1.trigger) in S
    ensures DecideEntries(chip, entries, c1, depth) == DecideEntries(chip, entries, c2, depth)
  {
    hide ClosedUnder, BitUnread, SameBitsBut, Eval, Target;
    if entries != [] {
      assert Target(entries[0].1.trigger) in S;
      EvalIgnoresBit(chip, S, bit, Target(entries[0].1.trigger), c1, c2, depth);
      assert forall i :: 0 <= i < |entries[1..]| ==> entries[1..][i] == entries[i + 1];
      DecideIgnoresBit(chip, S, bit, entries[1..], c1, c2, depth);
    }
  }

  // ---------- Negated triggers ----------

  /** However many NOT( a trigger starts with, it is one negation of the innermost name. */
  lemma {:induction false} NestedNot(n: nat, m: nat, wire: string)
    requires n > 0 && !StartsWith(wire, "NOT(") && (wire != [] ==> wire[|wire| - 1] != ')') && wire != []
    ensures var t := Repeat("NOT(", n) + wire + Repeat(")", m); IsNegated(t) && Target(t) == wire
  {
    var tail := wire + Repeat(")", m);
    assert Repeat("NOT(", n) + wire + Repeat(")", m) == Repeat("NOT(", n) + tail;
    NotThenTail(wire, m);
    StripNots(n, tail);
    StripCloses(wire, m);
    assert (Repeat("NOT(", n) + tail)[..4] == "NOT(";
  }

  function Repeat(s: string, n: nat): string {
    if n == 0 then "" else s + Repeat(s, n - 1)
  }

  lemma {:induction false} StripNots(n: nat, tail: string)
    requires !StartsWith(tail, "NOT(")
    ensures TrimNot(Repeat("NOT(", n) + tail) == tail
  {
    if n == 0 {
      assert Repeat("NOT(", 0) + tail == tail;
    } else {
      StripNots(n - 1, tail);
      var s := Repeat("NOT(", n) + tail;
      assert s == "NOT(" + (Repeat("NOT(", n - 1) + tail);
      assert s[4..] == Repeat("NOT(", n - 1) + tail && s[..4] == "NOT(";
    }
  }

  /** Appending parentheses to a wire name does not make it start with NOT(. */
  lemma NotThenTail(wire: string, m: nat)
    requires !StartsWith(wire, "NOT(") && wire != []
    ensures !StartsWith(wire + Repeat(")", m), "NOT(")
  {
    var t := wire + Repeat(")", m);
    Closing(m);
    if |wire| >= 4 {
      assert t[..4] == wire[..4];
    } else if m == 0 {
      assert t == wire;
    } else {
      assert t[|wire|] == ')' && "NOT("[|wire|] != ')';
    }
  }

  lemma Closing(m: nat)
    ensures m > 0 ==> Repeat(")", m) != [] && Repeat(")", m)[0] == ')'
    ensures m == 0 ==> Repeat(")", m) == []
  {
  }

  lemma {:induction false} StripCloses(wire: string, m: nat)
    requires wire != [] ==> wire[|wire| - 1] != ')'
    ensures TrimClose(wire + Repeat(")", m)) == wire
  {
    if m == 0 {
      assert wire + Repeat(")", 0) == wire;
    } else {
      RepeatSnoc(m - 1);
      StripCloses(wire, m - 1);
      hide Repeat, TrimClose;
      var front := wire + Repeat(")", m - 1);
      assert wire + (Repeat(")", m - 1) + ")") == front + ")";
      TrimOne(front);
    }
  }

  lemma TrimOne(front: string)
    ensures TrimClose(front + ")") == TrimClose(front)
  {
    var s := front + ")";
    assert s[..|s| - 1] == front;
  }

  lemma {:induction false} RepeatSnoc(m: nat)
    ensures Repeat(")", m + 1) == Repeat(")", m) + ")"
  {
    if m > 0 {
      RepeatSnoc(m - 1);
    }
  }

  /** A NOT trigger whose target is no wire fires on every request, so nothing listed after it is ever chosen. */
  lemma {:induction false} NotOfMissingWireShadows(chip: Chip, a: OutputDefinition, e: (string, OutputAction), b: OutputDefinition, ctx: Context, depth: nat)
    requires depth > 0 && IsNegated(e.1.trigger) && FindWire(chip.wiring, Target(e.1.trigger)).None?
    ensures DecideEntries(chip, a + [e] + b, ctx, depth) == DecideEntries(chip, a + [e], ctx, depth)
    ensures a == [] ==> DecideEntries(chip, a + [e] + b, ctx, depth) == Some(Verdict(e, [Target(e.1.trigger)]))
  {
    if a == [] {
      assert (a + [e] + b)[0] == e == (a + [e])[0];
    } else {
      assert (a + [e] + b)[0] == a[0] && (a + [e] + b)[1..] == a[1..] + [e] + b;
      assert (a + [e])[0] == a[0] && (a + [e])[1..] == a[1..] + [e];
      NotOfMissingWireShadows(chip, a[1..], e, b, ctx, depth);
    }
  }
}

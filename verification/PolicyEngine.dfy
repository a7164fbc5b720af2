/**
 The policy engine: wires over request bits, evaluated with short-circuiting and a trace, and
 outputs whose first firing trigger decides.
 */
module PolicyEngine {

  import opened Options
  import opened Sets

  datatype Structure =
    | Sequence(sequence: seq<string>)
    | Parallel(policies: seq<string>, aggregator: string)

  datatype Wire = Wire(id: string, structure: Structure)

  datatype OutputAction = OutputAction(trigger: string, action: string)

  /** One outputs entry of the chip; the B-tree map is its list of entries in ascending key order. */
  type OutputDefinition = seq<(string, OutputAction)>

  datatype Chip = Chip(wiring: seq<Wire>, outputs: seq<OutputDefinition>)

  datatype Decision = Decision(decision: string, why: string, trigger: string, chain: seq<string>)

  datatype LegacyJwt = LegacyJwt(valid: Option<bool>, expiresAt: Option<int>)

  /** The request facts the bits read, with the time P_Legacy_JWT compares against. */
  datatype Context = Context(
    tlsVersion: real,
    mtlsVerified: bool, mtlsIssuer: string,
    authMethod: string, rpId: string,
    groups: seq<string>,
    panicMode: bool,
    path: Option<string>,
    rate: Option<Option<bool>>,
    webhook: Option<Option<bool>>,
    legacyJwt: Option<LegacyJwt>,
    now: int)

  // ---------- Bits and wires ----------

  predicate StartsWith(s: string, prefix: string) {
    prefix <= s
  }

  predicate BitEval(id: string, ctx: Context) {
    if id == "P_Transport_Secure" then ctx.tlsVersion >= 1.3
    else if id == "P_Device_Identity" then
      ctx.mtlsVerified && (ctx.mtlsIssuer == "Cloudflare Edge" || ctx.mtlsIssuer == "UBL Local CA")
    else if id == "P_User_Passkey" then
      (ctx.authMethod == "access-passkey" || ctx.authMethod == "webauthn") && ctx.rpId == "app.ubl.agency"
    else if id == "P_Role_Admin" then "ubl-ops" in ctx.groups
    else if id == "P_Circuit_Breaker" then ctx.panicMode
    else if id == "P_Is_Admin_Path" then ctx.path.Some? && StartsWith(ctx.path.value, "/admin/")
    else if id == "P_Rate_Bucket_OK" then ctx.rate.Some? ==> ctx.rate.value == Some(true)
    else if id == "P_Webhook_Verified" then ctx.webhook == Some(Some(true))
    else if id == "P_Legacy_JWT" then
      match ctx.legacyJwt
      case None => false
      case Some(jwt) => jwt.valid == Some(true) && jwt.expiresAt.Some? && ctx.now < jwt.expiresAt.value
    else false
  }

  predicate IsWireName(x: string) {
    StartsWith(x, "W_")
  }

  /** The first wire with this id. */
  function FindWire(wiring: seq<Wire>, id: string): Option<Wire> {
    if wiring == [] then None
    else if wiring[0].id == id then Some(wiring[0])
    else FindWire(wiring[1..], id)
  }

  predicate Aggregate(policies: seq<string>, aggregator: string, ctx: Context) {
    if aggregator == "ANY" then exists p :: p in policies && BitEval(p, ctx)
    else if aggregator == "ALL" then forall p :: p in policies ==> BitEval(p, ctx)
    else false
  }

  /** A wire name inside a parallel list is read as a bit and false: ANY ignores it, ALL fails on it. */
  lemma WiresInParallelAreFalse(policies: seq<string>, k: nat, w: string, ctx: Context)
    requires k <= |policies| && IsWireName(w)
    ensures Aggregate(policies[..k] + [w] + policies[k..], "ANY", ctx) == Aggregate(policies, "ANY", ctx)
    ensures !Aggregate(policies[..k] + [w] + policies[k..], "ALL", ctx)
  {
    assert w[0] == 'W' && "P_"[0] == 'P';
    assert !BitEval(w, ctx);
    hide BitEval, IsWireName;
    var all := policies[..k] + [w] + policies[k..];
    assert policies == policies[..k] + policies[k..];
    assert all[k] == w;
    assert forall p :: p in all <==> p in policies || p == w;
    var any, every := "ANY", "ALL";
    assert any[1] == 'N' && every[1] == 'L';
  }

  // ---------- Evaluation as a function ----------

  datatype Outcome = Outcome(value: bool, chain: seq<string>)

  /** eval_wire_rec with a bound on the recursion depth; None when the bound is reached. */
  function Eval(chip: Chip, id: string, ctx: Context, depth: nat): Option<Outcome>
    decreases depth, 1, 0
  {
    if depth == 0 then None
    else match FindWire(chip.wiring, id)
      case None => Some(Outcome(false, [id]))
      case Some(w) =>
        match w.structure
        case Sequence(sequence) =>
          (match EvalSequence(chip, sequence, ctx, depth - 1)
           case None => None
           case Some(o) => Some(Outcome(o.value, [id] + o.chain)))
        case Parallel(policies, aggregator) => Some(Outcome(Aggregate(policies, aggregator, ctx), [id]))
  }

  function EvalSequence(chip: Chip, xs: seq<string>, ctx: Context, depth: nat): Option<Outcome>
    decreases depth, 2, |xs|
  {
    if xs == [] then Some(Outcome(true, []))
    else if !IsWireName(xs[0]) then
      if BitEval(xs[0], ctx) then EvalSequence(chip, xs[1..], ctx, depth) else Some(Outcome(false, []))
    else match Eval(chip, xs[0], ctx, depth)
      case None => None
      case Some(o) =>
        if !o.value then Some(o)
        else match EvalSequence(chip, xs[1..], ctx, depth)
          case None => None
          case Some(r) => Some(Outcome(r.value, o.chain + r.chain))
  }

  // ---------- Evaluation as the source runs it ----------

  /** The mutable trace a caller passes down the recursion. */
  class Chain {
    var items: seq<string>

    constructor ()
      ensures items == []
    {
      items := [];
    }
  }

  /** eval_wire_rec. The ghost depth is any bound under which the evaluation finishes. */
  method EvalWireRec(chip: Chip, id: string, ctx: Context, chain: Chain, ghost depth: nat) returns (value: bool)
    requires Eval(chip, id, ctx, depth).Some?
    modifies chain
    ensures var o := Eval(chip, id, ctx, depth).value;
      value == o.value && chain.items == old(chain.items) + o.chain
    decreases depth
  {
    hide BitEval, Aggregate, IsWireName;
    chain.items := chain.items + [id];
    var found := FindWire(chip.wiring, id);
    if found.None? {
      return false;
    }
    match found.value.structure
    case Sequence(sequence) =>
      ghost var start, whole := chain.items, EvalSequence(chip, sequence, ctx, depth - 1).value;
      assert Eval(chip, id, ctx, depth) == Some(Outcome(whole.value, [id] + whole.chain));
      assert start + whole.chain == old(chain.items) + ([id] + whole.chain);
      assert sequence[0..] == sequence;
      for i := 0 to |sequence|
        invariant EvalSequence(chip, sequence[i..], ctx, depth - 1).Some?
        invariant whole.value == EvalSequence(chip, sequence[i..], ctx, depth - 1).value.value
        invariant start + whole.chain == chain.items + EvalSequence(chip, sequence[i..], ctx, depth - 1).value.chain
      {
        hide Eval;
        var x := sequence[i];
        assert sequence[i..][1..] == sequence[i + 1..] && sequence[i..][0] == x;
        if IsWireName(x) {
          var v := EvalWireRec(chip, x, ctx, chain, depth - 1);
          if !v {
            return false;
          }
        } else if !BitEval(x, ctx) {
          assert chain.items + [] == chain.items;
          return false;
        }
      }
      assert sequence[|sequence|..] == [] && chain.items + [] == chain.items;
      value := true;
    case Parallel(policies, aggregator) =>
      var vals := seq(|policies|, i requires 0 <= i < |policies| => BitEval(policies[i], ctx));
      value := if aggregator == "ANY" then true in vals else if aggregator == "ALL" then false !in vals else false;
      AggregateOfBits(policies, aggregator, ctx, vals);
  }

  lemma AggregateOfBits(policies: seq<string>, aggregator: string, ctx: Context, vals: seq<bool>)
    requires |vals| == |policies| && forall i :: 0 <= i < |vals| ==> vals[i] == BitEval(policies[i], ctx)
    ensures (if aggregator == "ANY" then true in vals else if aggregator == "ALL" then false !in vals else false)
         == Aggregate(policies, aggregator, ctx)
  {
    if p :| p in policies && BitEval(p, ctx) {
      var i :| 0 <= i < |policies| && policies[i] == p;
      assert vals[i];
    }
    if p :| p in policies && !BitEval(p, ctx) {
      var i :| 0 <= i < |policies| && policies[i] == p;
      assert !vals[i];
    }
  }

  // ---------- The declarative meaning: the fully inlined wire ----------

  datatype Atom = Bit(id: string) | Group(policies: seq<string>, aggregator: string) | Missing(id: string)

  predicate Holds(a: Atom, ctx: Context) {
    match a
    case Bit(id) => BitEval(id, ctx)
    case Group(policies, aggregator) => Aggregate(policies, aggregator, ctx)
    case Missing(_) => false
  }

  predicate AllHold(atoms: seq<Atom>, ctx: Context) {
    forall a :: a in atoms ==> Holds(a, ctx)
  }

  /** A wire with every reference replaced by its definition, and the wire names met in preorder. */
  datatype Inlined = Inlined(atoms: seq<Atom>, preorder: seq<string>)

  function Inline(chip: Chip, id: string, depth: nat): Option<Inlined>
    decreases depth, 1, 0
  {
    if depth == 0 then None
    else match FindWire(chip.wiring, id)
      case None => Some(Inlined([Missing(id)], [id]))
      case Some(w) =>
        match w.structure
        case Sequence(sequence) =>
          (match InlineSequence(chip, sequence, depth - 1)
           case None => None
           case Some(u) => Some(Inlined(u.atoms, [id] + u.preorder)))
        case Parallel(policies, aggregator) => Some(Inlined([Group(policies, aggregator)], [id]))
  }

  function InlineSequence(chip: Chip, xs: seq<string>, depth: nat): Option<Inlined>
    decreases depth, 2, |xs|
  {
    if xs == [] then Some(Inlined([], []))
    else
      var head := if IsWireName(xs[0]) then Inline(chip, xs[0], depth) else Some(Inlined([Bit(xs[0])], []));
      match head
      case None => None
      case Some(u) =>
        match InlineSequence(chip, xs[1..], depth)
        case None => None
        case Some(v) => Some(Inlined(u.atoms + v.atoms, u.preorder + v.preorder))
  }

  /** o is what short-circuit evaluation may report about u. */
  ghost predicate Reports(o: Outcome, u: Inlined, ctx: Context) {
    && o.value == AllHold(u.atoms, ctx)
    && o.chain <= u.preorder
    && (o.value ==> o.chain == u.preorder)
  }

  /** Evaluation is the conjunction of the inlined wire; its trace is a prefix of the preorder, all of it when true. */
  lemma {:induction false} EvalMeaning(chip: Chip, id: string, ctx: Context, depth: nat)
    requires Inline(chip, id, depth).Some?
    ensures Eval(chip, id, ctx, depth).Some? && Reports(Eval(chip, id, ctx, depth).value, Inline(chip, id, depth).value, ctx)
    decreases depth, 1, 0
  {
    match FindWire(chip.wiring, id)
    case None => SingleAtom(Missing(id), ctx);
    case Some(w) =>
      match w.structure
      case Sequence(sequence) => EvalSequenceMeaning(chip, sequence, ctx, depth - 1);
      case Parallel(policies, aggregator) => SingleAtom(Group(policies, aggregator), ctx);
  }

  lemma SingleAtom(a: Atom, ctx: Context)
    ensures AllHold([a], ctx) == Holds(a, ctx)
  {
    assert a in [a];
  }

  lemma {:induction false} EvalSequenceMeaning(chip: Chip, xs: seq<string>, ctx: Context, depth: nat)
    requires InlineSequence(chip, xs, depth).Some?
    ensures EvalSequence(chip, xs, ctx, depth).Some?
    ensures Reports(EvalSequence(chip, xs, ctx, depth).value, InlineSequence(chip, xs, depth).value, ctx)
    decreases depth, 2, |xs|
  {
    if xs != [] {
      var rest := InlineSequence(chip, xs[1..], depth).value;
      EvalSequenceMeaning(chip, xs[1..], ctx, depth);
      if IsWireName(xs[0]) {
        EvalMeaning(chip, xs[0], ctx, depth);
        var u := Inline(chip, xs[0], depth).value;
        AllHoldConcat(u.atoms, rest.atoms, ctx);
      } else {
        AllHoldConcat([Bit(xs[0])], rest.atoms, ctx);
        SingleAtom(Bit(xs[0]), ctx);
      }
    }
  }

  lemma AllHoldConcat(a: seq<Atom>, b: seq<Atom>, ctx: Context)
    ensures AllHold(a + b, ctx) <==> AllHold(a, ctx) && AllHold(b, ctx)
  {
    if AllHold(a + b, ctx) {
      forall x | x in a ensures Holds(x, ctx) { assert x in a + b; }
      forall x | x in b ensures Holds(x, ctx) { assert x in a + b; }
    }
  }

  // ---------- Termination and the depth bound ----------

  function Bound(chip: Chip): nat {
    |chip.wiring| + 1
  }

  function Ids(wiring: seq<Wire>): set<string> {
    set w | w in wiring :: w.id
  }

  /** The wire named x lists the wire named y in its sequence. */
  predicate Refers(chip: Chip, x: string, y: string) {
    var w := FindWire(chip.wiring, x);
    w.Some? && w.value.structure.Sequence? && y in w.value.structure.sequence && IsWireName(y)
  }

  ghost predicate Path(chip: Chip, p: seq<string>) {
    |p| > 0 && forall i :: 0 <= i < |p| - 1 ==> Refers(chip, p[i], p[i + 1])
  }

  ghost predicate Cyclic(chip: Chip) {
    exists p :: Path(chip, p) && |p| > 1 && p[0] == p[|p| - 1]
  }

  lemma {:induction false} IdsSize(wiring: seq<Wire>)
    ensures |Ids(wiring)| <= |wiring|
  {
    if wiring != [] {
      IdsSize(wiring[1..]);
      assert wiring == [wiring[0]] + wiring[1..];
      assert Ids(wiring) == {wiring[0].id} + Ids(wiring[1..]);
    }
  }

  lemma {:induction false} FindWireFound(wiring: seq<Wire>, id: string)
    ensures FindWire(wiring, id).Some? <==> id in Ids(wiring)
    ensures FindWire(wiring, id).Some? ==> FindWire(wiring, id).value.id == id
  {
    if wiring != [] {
      FindWireFound(wiring[1..], id);
      assert wiring == [wiring[0]] + wiring[1..];
      assert Ids(wiring) == {wiring[0].id} + Ids(wiring[1..]);
    }
  }

  /** Running out of depth leaves a chain of references that long. */
  lemma {:induction false} DeepPath(chip: Chip, id: string, depth: nat) returns (p: seq<string>)
    requires Inline(chip, id, depth).None?
    ensures |p| == depth + 1 && p[0] == id && Path(chip, p)
    decreases depth
  {
    if depth == 0 {
      p := [id];
    } else {
      var sequence := FindWire(chip.wiring, id).value.structure.sequence;
      var x := FailingReference(chip, sequence, depth - 1);
      var q := DeepPath(chip, x, depth - 1);
      p := [id] + q;
    }
  }

  lemma {:induction false} FailingReference(chip: Chip, xs: seq<string>, depth: nat) returns (x: string)
    requires InlineSequence(chip, xs, depth).None?
    ensures x in xs && IsWireName(x) && Inline(chip, x, depth).None?
  {
    if IsWireName(xs[0]) && Inline(chip, xs[0], depth).None? {
      x := xs[0];
    } else {
      x := FailingReference(chip, xs[1..], depth);
    }
  }

  /** A sequence longer than the set it draws from repeats a value. */
  lemma {:induction false} Pigeonhole(p: seq<string>, s: set<string>) returns (i: nat, j: nat)
    requires forall k :: 0 <= k < |p| ==> p[k] in s
    requires |p| > |s|
    ensures i < j < |p| && p[i] == p[j]
  {
    if k :| 1 <= k < |p| && p[k] == p[0] {
      i, j := 0, k;
    } else {
      var t := s - {p[0]};
      i, j := Pigeonhole(p[1..], t);
      i, j := i + 1, j + 1;
    }
  }

  /** Without reference cycles every wire inlines, so evaluation stops within the number of wires plus one. */
  lemma AcyclicTerminates(chip: Chip, id: string)
    requires !Cyclic(chip)
    ensures Inline(chip, id, Bound(chip)).Some?
  {
    if Inline(chip, id, Bound(chip)).None? {
      var p := DeepPath(chip, id, Bound(chip));
      hide Inline, FindWire;
      LongPathCycles(chip, p);
    }
  }

  /** A reference path with more links than there are wires visits a wire twice. */
  lemma LongPathCycles(chip: Chip, p: seq<string>)
    requires Path(chip, p) && |p| > |chip.wiring| + 1
    ensures Cyclic(chip)
  {
    var q := p[..|p| - 1];
    forall k | 0 <= k < |q| ensures q[k] in Ids(chip.wiring) {
      assert Refers(chip, p[k], p[k + 1]);
      FindWireFound(chip.wiring, p[k]);
    }
    IdsSize(chip.wiring);
    var i, j := Pigeonhole(q, Ids(chip.wiring));
    hide FindWire, Ids;
    assert p[i] == p[j];
    var cycle := p[i..j + 1];
    forall k | 0 <= k < |cycle| - 1 ensures Refers(chip, cycle[k], cycle[k + 1]) {
      assert Refers(chip, p[i + k], p[i + k + 1]);
    }
    assert Path(chip, cycle);
  }

  /** More depth never changes a finished evaluation. */
  lemma {:induction false} EvalMonotone(chip: Chip, id: string, ctx: Context, m: nat, n: nat)
    requires m <= n && Eval(chip, id, ctx, m).Some?
    ensures Eval(chip, id, ctx, n) == Eval(chip, id, ctx, m)
    decreases m, 1, 0
  {
    match FindWire(chip.wiring, id)
    case None =>
    case Some(w) =>
      match w.structure
      case Sequence(sequence) => EvalSequenceMonotone(chip, sequence, ctx, m - 1, n - 1);
      case Parallel(policies, aggregator) =>
  }

  lemma {:induction false} EvalSequenceMonotone(chip: Chip, xs: seq<string>, ctx: Context, m: nat, n: nat)
    requires m <= n && EvalSequence(chip, xs, ctx, m).Some?
    ensures EvalSequence(chip, xs, ctx, n) == EvalSequence(chip, xs, ctx, m)
    decreases m, 2, |xs|
  {
    if xs != [] {
      if IsWireName(xs[0]) {
        EvalMonotone(chip, xs[0], ctx, m, n);
        if Eval(chip, xs[0], ctx, m).value.value {
          EvalSequenceMonotone(chip, xs[1..], ctx, m, n);
        }
      } else if BitEval(xs[0], ctx) {
        EvalSequenceMonotone(chip, xs[1..], ctx, m, n);
      }
    }
  }

  /** id needs exactly this recursion depth. */
  ghost predicate Needs(chip: Chip, id: string, ctx: Context, depth: nat) {
    depth > 0 && Eval(chip, id, ctx, depth).Some? && Eval(chip, id, ctx, depth - 1).None?
  }

  lemma {:induction false} NeedsUnique(chip: Chip, id: string, ctx: Context, m: nat, n: nat)
    requires Needs(chip, id, ctx, m) && Needs(chip, id, ctx, n)
    ensures m == n
  {
    if m < n {
      EvalMonotone(chip, id, ctx, m, n - 1);
    } else if n < m {
      EvalMonotone(chip, id, ctx, n, m - 1);
    }
  }

  /** A wire that needs depth n > 1 calls one that needs n - 1. */
  lemma {:induction false} NeedyReference(chip: Chip, xs: seq<string>, ctx: Context, n: nat) returns (x: string)
    requires n > 0 && EvalSequence(chip, xs, ctx, n).Some? && EvalSequence(chip, xs, ctx, n - 1).None?
    ensures Needs(chip, x, ctx, n)
  {
    if IsWireName(xs[0]) && Eval(chip, xs[0], ctx, n - 1).None? {
      x := xs[0];
    } else {
      if IsWireName(xs[0]) {
        EvalMonotone(chip, xs[0], ctx, n - 1, n);
      }
      x := NeedyReference(chip, xs[1..], ctx, n);
    }
  }

  /** The wires on the deepest stack: one for each depth from 2 to n. */
  lemma {:induction false} NeedyWires(chip: Chip, id: string, ctx: Context, n: nat) returns (s: set<string>)
    requires Needs(chip, id, ctx, n)
    ensures |s| == n - 1 && s <= Ids(chip.wiring)
    ensures forall x :: x in s ==> exists k :: 2 <= k <= n && Needs(chip, x, ctx, k)
    decreases n
  {
    if n == 1 {
      s := {};
    } else {
      FindWireFound(chip.wiring, id);
      var x := NeedyReference(chip, FindWire(chip.wiring, id).value.structure.sequence, ctx, n - 1);
      var t := NeedyWires(chip, x, ctx, n - 1);
      if id in t {
        var k :| 2 <= k <= n - 1 && Needs(chip, id, ctx, k);
        NeedsUnique(chip, id, ctx, k, n);
      }
      s := t + {id};
    }
  }

  lemma {:induction false} LeastDepth(chip: Chip, id: string, ctx: Context, depth: nat) returns (n: nat)
    requires Eval(chip, id, ctx, depth).Some?
    ensures n <= depth && Needs(chip, id, ctx, n)
    decreases depth
  {
    if Eval(chip, id, ctx, depth - 1).None? {
      n := depth;
    } else {
      n := LeastDepth(chip, id, ctx, depth - 1);
    }
  }

  /** On every chip, cyclic or not, an evaluation that stops at all stops within the number of wires plus one. */
  lemma DepthBound(chip: Chip, id: string, ctx: Context, depth: nat)
    requires Eval(chip, id, ctx, depth).Some?
    ensures Eval(chip, id, ctx, Bound(chip)) == Eval(chip, id, ctx, depth)
  {
    var n := LeastDepth(chip, id, ctx, depth);
    var s := NeedyWires(chip, id, ctx, n);
    IdsSize(chip.wiring);
    SubsetSize(s, Ids(chip.wiring));
    EvalMonotone(chip, id, ctx, n, Bound(chip));
    EvalMonotone(chip, id, ctx, n, depth);
  }
}

/**
 Two of the chips the repository ships, as data, and what the engine makes of them.
 */
module ShippedPolicies {
  import opened PolicyEngine
  import opened PolicyDecision
  import opened Options

  /** policies/ubl_core_v3.yaml. */
  const CORE_V3 := Chip(
    [ Wire("W_ZeroTrust_Standard", Sequence(["P_Transport_Secure", "P_Device_Identity", "P_User_Passkey", "P_Rate_Bucket_OK"])),
      Wire("W_Admin_Path_And_Role", Sequence(["W_ZeroTrust_Standard", "P_Is_Admin_Path", "P_Role_Admin"])),
      Wire("W_Webhook_Trusted", Sequence(["P_Webhook_Verified"])),
      Wire("W_Public_Warmup", Sequence([])),
      Wire("W_Emergency_Override", Parallel(["W_ZeroTrust_Standard", "P_Circuit_Breaker"], "ANY")) ],
    [ [("deny_rate_limit", OutputAction("NOT(P_Rate_Bucket_OK)", "HTTP 429 + LogLine(reason: rate_limit)"))],
      [("allow_admin_write", OutputAction("W_Admin_Path_And_Role", "HTTP 200 + Enable Write Operations"))],
      [("allow_webhook", OutputAction("W_Webhook_Trusted", "HTTP 204 + Acknowledge"))],
      [("allow_standard_access", OutputAction("W_ZeroTrust_Standard", "HTTP 200 + Read/Write conforme rota não-admin"))],
      [("allow_public_warmup", OutputAction("W_Public_Warmup", "HTTP 200 + Warm"))],
      [("deny_invalid_access", OutputAction("NOT(W_ZeroTrust_Standard)", "HTTP 403 + LogLine(reason: policy_fail)"))] ])

  /** policies/ubl_core_v1.yaml. */
  const CORE_V1 := Chip(
    [ Wire("W_ZeroTrust_Standard", Sequence(["P_Transport_Secure", "P_Device_Identity", "P_User_Passkey"])),
      Wire("W_Admin_Access", Sequence(["W_ZeroTrust_Standard", "P_Role_Admin"])),
      Wire("W_Emergency_Override", Parallel(["W_ZeroTrust_Standard", "P_Circuit_Breaker"], "ANY")),
      Wire("W_Admin_Path_And_Role", Sequence(["W_ZeroTrust_Standard", "P_Is_Admin_Path", "P_Role_Admin"])) ],
    [ [("allow_admin_write", OutputAction("W_Admin_Path_And_Role", "HTTP 200 + Enable Write Operations"))],
      [("allow_standard_access", OutputAction("W_ZeroTrust_Standard", "HTTP 200 + Read Only"))],
      [("deny_invalid_access", OutputAction("NOT(W_ZeroTrust_Standard)", "HTTP 403 + LogLine(status: rejected, reason: policy_fail)"))] ])

  lemma TargetOfNot(wire: string, trigger: string)
    requires wire != [] && !StartsWith(wire, "NOT(") && wire[|wire| - 1] != ')'
    requires trigger == "NOT(" + wire + ")"
    ensures IsNegated(trigger) && Target(trigger) == wire
  {
    assert Repeat("NOT(", 1) == "NOT(" + Repeat("NOT(", 0) == "NOT(";
    assert Repeat(")", 1) == ")" + Repeat(")", 0) == ")";
    NestedNot(1, 1, wire);
  }

  lemma MissingFrom(wiring: seq<Wire>, id: string)
    requires forall i :: 0 <= i < |wiring| ==> wiring[i].id != id
    ensures FindWire(wiring, id).None?
  {
  }

  /**
   The first output of version 3 negates the bit P_Rate_Bucket_OK as if it were a wire. No wire has
   that name, so the trigger fires on every request and every request is denied for its rate.
   */
  lemma CoreV3DeniesEverything(ctx: Context, depth: nat)
    requires depth > 0
    ensures Decide(CORE_V3, ctx, depth)
         == Some(Decision("deny_rate_limit", "HTTP 429 + LogLine(reason: rate_limit)", "NOT(P_Rate_Bucket_OK)", ["P_Rate_Bucket_OK"]))
  {
    RateTrigger();
    RateBitIsNoWire();
    V3Outputs();
    hide DecideEntries, Target, IsNegated, FindWire, Flatten;
    NotOfMissingWireShadows(CORE_V3, [], CORE_V3.outputs[0][0], Flatten(CORE_V3.outputs[1..]), ctx, depth);
  }

  lemma V3Outputs()
    ensures Flatten(CORE_V3.outputs) == [] + [CORE_V3.outputs[0][0]] + Flatten(CORE_V3.outputs[1..])
  {
    FlattenFrom(CORE_V3.outputs, 0);
    hide Flatten;
    assert CORE_V3.outputs[0..] == CORE_V3.outputs;
    assert CORE_V3.outputs[0] == [CORE_V3.outputs[0][0]];
  }

  lemma RateTrigger()
    ensures IsNegated("NOT(P_Rate_Bucket_OK)") && Target("NOT(P_Rate_Bucket_OK)") == "P_Rate_Bucket_OK"
  {
    var wire, trigger := "P_Rate_Bucket_OK", "NOT(P_Rate_Bucket_OK)";
    assert wire[0] == 'P' && wire[|wire| - 1] == 'K';
    assert "NOT("[0] == 'N';
    var joined := "NOT(" + wire + ")";
    assert |trigger| == |joined| == 21;
    forall i | 0 <= i < 21 ensures trigger[i] == joined[i] {
    }
    assert trigger == joined;
    TargetOfNot(wire, trigger);
  }

  lemma RateBitIsNoWire()
    ensures FindWire(CORE_V3.wiring, "P_Rate_Bucket_OK").None?
  {
    forall i | 0 <= i < |CORE_V3.wiring| ensures CORE_V3.wiring[i].id != "P_Rate_Bucket_OK" {
      assert CORE_V3.wiring[i].id[0] == 'W' && "P_Rate_Bucket_OK"[0] == 'P';
    }
    MissingFrom(CORE_V3.wiring, "P_Rate_Bucket_OK");
  }

  // ---------- The circuit breaker of version 1 ----------

  const USED_BY_V1: set<string> := {"W_ZeroTrust_Standard", "W_Admin_Path_And_Role"}

  /**
   No output of version 1 reaches W_Emergency_Override, the only wire that lists the circuit breaker:
   switching panic mode on or off never changes a decision.
   */
  lemma CoreV1IgnoresPanicMode(ctx: Context, panic: bool, depth: nat)
    ensures Decide(CORE_V1, ctx.(panicMode := panic), depth) == Decide(CORE_V1, ctx, depth)
  {
    var c2, bit := ctx.(panicMode := panic), "P_Circuit_Breaker";
    assert SameBitsBut(c2, ctx, bit);
    UsedWires();
    V1Targets();
    hide BitEval, FindWire, Flatten, Target, SameBitsBut, ClosedUnder, BitUnread;
    DecideIgnoresBit(CORE_V1, USED_BY_V1, bit, Flatten(CORE_V1.outputs), c2, ctx, depth);
  }

  lemma UsedWires()
    ensures ClosedUnder(CORE_V1, USED_BY_V1) && BitUnread(CORE_V1, USED_BY_V1, "P_Circuit_Breaker")
  {
    var zero, admin, wiring := "W_ZeroTrust_Standard", "W_Admin_Path_And_Role", CORE_V1.wiring;
    assert FindWire(wiring, zero) == Some(wiring[0]);
    assert FindWire(wiring, admin) == Some(wiring[3]) by {
      assert |zero| == 20 && |admin| == 21 && |"W_Admin_Access"| == 14 && |"W_Emergency_Override"| == 20;
      assert FindWire(wiring, admin) == FindWire(wiring[1..], admin) == FindWire(wiring[2..], admin) == FindWire(wiring[3..], admin);
    }
    NotBit("P_Transport_Secure", 'T');
    NotBit("P_Device_Identity", 'D');
    NotBit("P_User_Passkey", 'U');
    NotBit("P_Is_Admin_Path", 'I');
    NotBit("P_Role_Admin", 'R');
    assert "P_Circuit_Breaker"[0] == 'P' && zero[0] == 'W';
  }

  lemma NotBit(s: string, c: char)
    requires |s| > 2 && s[0] == 'P' && s[2] == c && c != 'C'
    ensures s != "P_Circuit_Breaker" && !IsWireName(s)
  {
    assert "P_Circuit_Breaker"[2] == 'C';
    assert "W_"[0] == 'W';
  }

  lemma V1Targets()
    ensures forall i :: 0 <= i < |Flatten(CORE_V1.outputs)| ==> Target(Flatten(CORE_V1.outputs)[i].1.trigger) in USED_BY_V1
  {
    V1Outputs();
    V1Triggers();
    hide Flatten, Target, IsNegated;
  }

  lemma V1Outputs()
    ensures Flatten(CORE_V1.outputs) == [CORE_V1.outputs[0][0], CORE_V1.outputs[1][0], CORE_V1.outputs[2][0]]
  {
    var o := CORE_V1.outputs;
    assert Flatten(o[3..]) == [] && o[2..][1..] == o[3..] && o[1..][1..] == o[2..];
  }

  lemma ZeroTrustTrigger()
    ensures IsNegated("NOT(W_ZeroTrust_Standard)") && Target("NOT(W_ZeroTrust_Standard)") == "W_ZeroTrust_Standard"
  {
    var wire, trigger := "W_ZeroTrust_Standard", "NOT(W_ZeroTrust_Standard)";
    var joined := "NOT(" + wire + ")";
    assert "NOT("[0] == 'N';
    assert wire[0] == 'W' && wire[|wire| - 1] == 'd';
    hide Target;
    assert |trigger| == |joined| == 25;
    forall i | 0 <= i < 25 ensures trigger[i] == joined[i] {
    }
    TargetOfNot(wire, trigger);
  }

  // ---------- What the bits read, and what version 1 decides ----------

  /** The bits of the listed names differ in their third or fourth character. */
  lemma BitNames()
    ensures
      var t, d, u, r, c, i, b, w, l := "P_Transport_Secure", "P_Device_Identity", "P_User_Passkey", "P_Role_Admin",
        "P_Circuit_Breaker", "P_Is_Admin_Path", "P_Rate_Bucket_OK", "P_Webhook_Verified", "P_Legacy_JWT";
      && t[2] == 'T' && d[2] == 'D' && u[2] == 'U' && r[2] == 'R' && c[2] == 'C' && i[2] == 'I' && b[2] == 'R'
      && w[2] == 'W' && l[2] == 'L' && r[3] == 'o' && b[3] == 'a'
  {
  }

  lemma BitsOfV1(ctx: Context)
    ensures BitEval("P_Transport_Secure", ctx) <==> ctx.tlsVersion >= 1.3
    ensures BitEval("P_Device_Identity", ctx) <==>
      ctx.mtlsVerified && ctx.mtlsIssuer in ["Cloudflare Edge", "UBL Local CA"]
    ensures BitEval("P_User_Passkey", ctx) <==>
      ctx.authMethod in ["access-passkey", "webauthn"] && ctx.rpId == "app.ubl.agency"
    ensures BitEval("P_Role_Admin", ctx) <==> exists k :: 0 <= k < |ctx.groups| && ctx.groups[k] == "ubl-ops"
    ensures BitEval("P_Is_Admin_Path", ctx) <==>
      ctx.path.Some? && |ctx.path.value| >= 7 && ctx.path.value[..7] == "/admin/"
  {
    BitNames();
    assert |"/admin/"| == 7;
    assert "UBL Local CA" in ["Cloudflare Edge", "UBL Local CA"];
    assert ["Cloudflare Edge", "UBL Local CA"][0] == "Cloudflare Edge";
  }

  lemma OtherBits(ctx: Context)
    ensures BitEval("P_Circuit_Breaker", ctx) <==> ctx.panicMode
    ensures BitEval("P_Rate_Bucket_OK", ctx) <==> ctx.rate == None || ctx.rate == Some(Some(true))
    ensures BitEval("P_Webhook_Verified", ctx) <==> ctx.webhook == Some(Some(true))
    ensures BitEval("P_Legacy_JWT", ctx) <==>
      exists e :: ctx.legacyJwt == Some(LegacyJwt(Some(true), Some(e))) && e > ctx.now
  {
    BitNames();
    if BitEval("P_Legacy_JWT", ctx) {
      assert ctx.legacyJwt == Some(LegacyJwt(Some(true), Some(ctx.legacyJwt.value.expiresAt.value)));
    }
  }

  lemma UnknownBit(bit: string, ctx: Context)
    requires bit != "P_Transport_Secure" && bit != "P_Device_Identity" && bit != "P_User_Passkey" && bit != "P_Role_Admin"
    requires bit != "P_Circuit_Breaker" && bit != "P_Is_Admin_Path" && bit != "P_Rate_Bucket_OK"
    requires bit != "P_Webhook_Verified" && bit != "P_Legacy_JWT"
    ensures !BitEval(bit, ctx)
  {
  }

  /** A sequence of bits alone is their conjunction, and adds nothing to the trace. */
  lemma {:induction false} BitsOnly(chip: Chip, xs: seq<string>, ctx: Context, depth: nat)
    requires forall i :: 0 <= i < |xs| ==> !IsWireName(xs[i])
    ensures EvalSequence(chip, xs, ctx, depth) == Some(Outcome(forall i :: 0 <= i < |xs| ==> BitEval(xs[i], ctx), []))
  {
    hide BitEval;
    if xs != [] {
      BitsOnly(chip, xs[1..], ctx, depth);
      assert forall i :: 1 <= i < |xs| ==> xs[i] == xs[1..][i - 1];
      assert forall i :: 0 <= i < |xs[1..]| ==> xs[1..][i] == xs[i + 1];
    }
  }

  /** A chip with a single wire that lists a single bit. */
  function OneBit(bit: string): Chip {
    Chip([Wire("W_Bit", Sequence([bit]))], [])
  }

  lemma OneBitValue(bit: string, ctx: Context, depth: nat)
    requires depth >= 1 && !IsWireName(bit)
    ensures Eval(OneBit(bit), "W_Bit", ctx, depth) == Some(Outcome(BitEval(bit, ctx), ["W_Bit"]))
  {
    hide BitEval;
    BitsOnly(OneBit(bit), [bit], ctx, depth - 1);
    assert [bit][0] == bit;
    assert FindWire(OneBit(bit).wiring, "W_Bit") == Some(Wire("W_Bit", Sequence([bit])));
    assert ["W_Bit"] + [] == ["W_Bit"];
  }

  lemma NotWire(bit: string)
    requires |bit| > 0 && bit[0] == 'P'
    ensures !IsWireName(bit)
  {
    assert "W_"[0] == 'W';
  }

  /**
   What a wire of one bit says of a request, for every name and every request: the rate bit holds unless
   a rate is given that is not ok, the others need what they name.
   */
  lemma BitWires(bit: string, ctx: Context, depth: nat)
    requires depth >= 1 && !IsWireName(bit)
    ensures Eval(OneBit(bit), "W_Bit", ctx, depth).Some?
    ensures Eval(OneBit(bit), "W_Bit", ctx, depth).value.value <==>
      || (bit == "P_Transport_Secure" && ctx.tlsVersion >= 1.3)
      || (bit == "P_Device_Identity" && ctx.mtlsVerified && ctx.mtlsIssuer in ["Cloudflare Edge", "UBL Local CA"])
      || (bit == "P_User_Passkey" && ctx.authMethod in ["access-passkey", "webauthn"] && ctx.rpId == "app.ubl.agency")
      || (bit == "P_Role_Admin" && exists k :: 0 <= k < |ctx.groups| && ctx.groups[k] == "ubl-ops")
      || (bit == "P_Circuit_Breaker" && ctx.panicMode)
      || (bit == "P_Is_Admin_Path" && ctx.path.Some? && |ctx.path.value| >= 7 && ctx.path.value[..7] == "/admin/")
      || (bit == "P_Rate_Bucket_OK" && (ctx.rate == None || ctx.rate == Some(Some(true))))
      || (bit == "P_Webhook_Verified" && ctx.webhook == Some(Some(true)))
      || (bit == "P_Legacy_JWT" && exists e :: ctx.legacyJwt == Some(LegacyJwt(Some(true), Some(e))) && e > ctx.now)
  {
    OneBitValue(bit, ctx, depth);
    BitsOfV1(ctx);
    OtherBits(ctx);
    BitNames();
    hide BitEval, Eval, IsWireName;
    if bit != "P_Transport_Secure" && bit != "P_Device_Identity" && bit != "P_User_Passkey" && bit != "P_Role_Admin" {
      if bit != "P_Circuit_Breaker" && bit != "P_Is_Admin_Path" && bit != "P_Rate_Bucket_OK" {
        if bit != "P_Webhook_Verified" && bit != "P_Legacy_JWT" {
          UnknownBit(bit, ctx);
        }
      }
    }
  }

  // The facts version 1 asks for.

  predicate Authenticated(ctx: Context) {
    && ctx.tlsVersion >= 1.3
    && ctx.mtlsVerified && ctx.mtlsIssuer in ["Cloudflare Edge", "UBL Local CA"]
    && ctx.authMethod in ["access-passkey", "webauthn"] && ctx.rpId == "app.ubl.agency"
  }

  predicate Operator(ctx: Context) {
    exists k :: 0 <= k < |ctx.groups| && ctx.groups[k] == "ubl-ops"
  }

  predicate OnAdminPath(ctx: Context) {
    ctx.path.Some? && |ctx.path.value| >= 7 && ctx.path.value[..7] == "/admin/"
  }

  lemma ZeroTrustValue(ctx: Context, depth: nat)
    requires depth >= 1
    ensures Eval(CORE_V1, "W_ZeroTrust_Standard", ctx, depth) == Some(Outcome(Authenticated(ctx), ["W_ZeroTrust_Standard"]))
  {
    var xs := ["P_Transport_Secure", "P_Device_Identity", "P_User_Passkey"];
    BitsOfV1(ctx);
    assert xs[0][0] == 'P' && xs[1][0] == 'P' && xs[2][0] == 'P';
    forall i | 0 <= i < |xs| ensures !IsWireName(xs[i]) {
      NotWire(xs[i]);
    }
    hide BitEval, IsWireName, EvalSequence;
    BitsOnly(CORE_V1, xs, ctx, depth - 1);
    assert FindWire(CORE_V1.wiring, "W_ZeroTrust_Standard") == Some(CORE_V1.wiring[0]);
    assert ["W_ZeroTrust_Standard"] + [] == ["W_ZeroTrust_Standard"];
  }

  lemma AdminFound()
    ensures FindWire(CORE_V1.wiring, "W_Admin_Path_And_Role") == Some(CORE_V1.wiring[3])
  {
    var admin, wiring := "W_Admin_Path_And_Role", CORE_V1.wiring;
    assert |"W_ZeroTrust_Standard"| == 20 && |admin| == 21 && |"W_Admin_Access"| == 14 && |"W_Emergency_Override"| == 20;
    assert FindWire(wiring, admin) == FindWire(wiring[1..], admin) == FindWire(wiring[2..], admin) == FindWire(wiring[3..], admin);
  }

  lemma AdminValue(ctx: Context, depth: nat)
    requires depth >= 2
    ensures Eval(CORE_V1, "W_Admin_Path_And_Role", ctx, depth) ==
      Some(Outcome(Authenticated(ctx) && OnAdminPath(ctx) && Operator(ctx), ["W_Admin_Path_And_Role", "W_ZeroTrust_Standard"]))
  {
    var zero, admin, rest := "W_ZeroTrust_Standard", "W_Admin_Path_And_Role", ["P_Is_Admin_Path", "P_Role_Admin"];
    BitsOfV1(ctx);
    assert rest[0][0] == 'P' && rest[1][0] == 'P' && IsWireName(zero);
    forall i | 0 <= i < |rest| ensures !IsWireName(rest[i]) {
      NotWire(rest[i]);
    }
    AdminFound();
    ZeroTrustValue(ctx, depth - 1);
    BitsOnly(CORE_V1, rest, ctx, depth - 1);
    hide BitEval, IsWireName, Authenticated, FindWire;
    var xs := CORE_V1.wiring[3].structure.sequence;
    assert xs[0] == zero && xs[1..] == rest;
    ThenBits(CORE_V1, xs, ctx, depth - 1);
    assert [admin] + ([zero] + []) == [admin, zero] && [admin] + [zero] == [admin, zero];
  }

  /** A sequence that begins with a wire. */
  lemma ThenBits(chip: Chip, xs: seq<string>, ctx: Context, depth: nat)
    requires xs != [] && IsWireName(xs[0]) && Eval(chip, xs[0], ctx, depth).Some? && EvalSequence(chip, xs[1..], ctx, depth).Some?
    ensures
      var first, rest := Eval(chip, xs[0], ctx, depth).value, EvalSequence(chip, xs[1..], ctx, depth).value;
      EvalSequence(chip, xs, ctx, depth) ==
        Some(if first.value then Outcome(rest.value, first.chain + rest.chain) else first)
  {
    hide Eval, BitEval;
  }

  /**
   Every decision of version 1, with its reason, trigger and trace: administrators on an administrative
   path may write, everyone else who is authenticated may read, and nobody else anything.
   */
  lemma CoreV1Decides(ctx: Context, depth: nat)
    requires depth >= 2
    ensures Decide(CORE_V1, ctx, depth) == Some(
      if Authenticated(ctx) && OnAdminPath(ctx) && Operator(ctx) then
        Decision("allow_admin_write", "HTTP 200 + Enable Write Operations", "W_Admin_Path_And_Role",
                 ["W_Admin_Path_And_Role", "W_ZeroTrust_Standard"])
      else if Authenticated(ctx) then
        Decision("allow_standard_access", "HTTP 200 + Read Only", "W_ZeroTrust_Standard", ["W_ZeroTrust_Standard"])
      else
        Decision("deny_invalid_access", "HTTP 403 + LogLine(status: rejected, reason: policy_fail)",
                 "NOT(W_ZeroTrust_Standard)", ["W_ZeroTrust_Standard"]))
  {
    V1Outputs();
    var a, b, c := CORE_V1.outputs[0][0], CORE_V1.outputs[1][0], CORE_V1.outputs[2][0];
    FiresV1(ctx, depth);
    hide Fire, Authenticated, OnAdminPath, Operator, Flatten, DecideEntries;
    FirstOfThree(CORE_V1, a, b, c, ctx, depth);
  }

  lemma FiresV1(ctx: Context, depth: nat)
    requires depth >= 2
    ensures Fire(CORE_V1, "W_Admin_Path_And_Role", ctx, depth) ==
      Some(Outcome(Authenticated(ctx) && OnAdminPath(ctx) && Operator(ctx), ["W_Admin_Path_And_Role", "W_ZeroTrust_Standard"]))
    ensures Fire(CORE_V1, "W_ZeroTrust_Standard", ctx, depth) == Some(Outcome(Authenticated(ctx), ["W_ZeroTrust_Standard"]))
    ensures Fire(CORE_V1, "NOT(W_ZeroTrust_Standard)", ctx, depth) == Some(Outcome(!Authenticated(ctx), ["W_ZeroTrust_Standard"]))
  {
    V1Triggers();
    AdminValue(ctx, depth);
    ZeroTrustValue(ctx, depth);
    hide Eval, Authenticated, OnAdminPath, Operator, Target, IsNegated;
  }

  lemma FirstOfThree(chip: Chip, a: (string, OutputAction), b: (string, OutputAction), c: (string, OutputAction), ctx: Context, depth: nat)
    requires Fire(chip, a.1.trigger, ctx, depth).Some? && Fire(chip, b.1.trigger, ctx, depth).Some?
    requires Fire(chip, c.1.trigger, ctx, depth).Some?
    ensures
      var x, y, z := Fire(chip, a.1.trigger, ctx, depth).value, Fire(chip, b.1.trigger, ctx, depth).value,
        Fire(chip, c.1.trigger, ctx, depth).value;
      DecideEntries(chip, [a, b, c], ctx, depth) == Some(
        if x.value then Verdict(a, x.chain) else if y.value then Verdict(b, y.chain)
        else if z.value then Verdict(c, z.chain) else DEFAULT_DENY)
  {
    hide Fire;
    assert [a, b, c][1..] == [b, c] && [b, c][1..] == [c] && [c][1..] == [];
    var z := Fire(chip, c.1.trigger, ctx, depth).value;
    assert DecideEntries(chip, [c], ctx, depth) == Some(if z.value then Verdict(c, z.chain) else DEFAULT_DENY);
  }

  lemma V1Triggers()
    ensures !IsNegated("W_Admin_Path_And_Role") && Target("W_Admin_Path_And_Role") == "W_Admin_Path_And_Role"
    ensures !IsNegated("W_ZeroTrust_Standard") && Target("W_ZeroTrust_Standard") == "W_ZeroTrust_Standard"
    ensures IsNegated("NOT(W_ZeroTrust_Standard)") && Target("NOT(W_ZeroTrust_Standard)") == "W_ZeroTrust_Standard"
  {
    ZeroTrustTrigger();
    hide IsNegated, Target;
    assert "W_ZeroTrust_Standard"[0] == 'W' && "W_Admin_Path_And_Role"[0] == 'W';
    PlainTrigger("W_ZeroTrust_Standard");
    PlainTrigger("W_Admin_Path_And_Role");
  }

  lemma PlainTrigger(trigger: string)
    requires |trigger| > 0 && trigger[0] == 'W'
    ensures !IsNegated(trigger) && Target(trigger) == trigger
  {
    assert "NOT("[0] == 'N';
  }

  /** Emergency override is true in panic mode alone: the wire it lists besides the breaker is read as a bit. */
  lemma OverrideValue(ctx: Context, depth: nat)
    requires depth >= 1
    ensures Eval(CORE_V1, "W_Emergency_Override", ctx, depth) == Some(Outcome(ctx.panicMode, ["W_Emergency_Override"]))
  {
    var zero, breaker, id := "W_ZeroTrust_Standard", "P_Circuit_Breaker", "W_Emergency_Override";
    OtherBits(ctx);
    ZeroIsNoBit(ctx);
    OverrideFound();
    hide BitEval, FindWire;
    var policies := [zero, breaker];
    assert policies[0] == zero && policies[1] == breaker;
    assert Aggregate(policies, "ANY", ctx) == ctx.panicMode;
  }

  lemma ZeroIsNoBit(ctx: Context)
    ensures !BitEval("W_ZeroTrust_Standard", ctx)
  {
    assert "W_ZeroTrust_Standard"[0] == 'W' && "P_"[0] == 'P';
  }

  lemma OverrideFound()
    ensures FindWire(CORE_V1.wiring, "W_Emergency_Override") == Some(CORE_V1.wiring[2])
  {
    var id, wiring := "W_Emergency_Override", CORE_V1.wiring;
    assert "W_ZeroTrust_Standard"[2] == 'Z' && id[2] == 'E' && "W_Admin_Access"[2] == 'A';
    assert FindWire(wiring, id) == FindWire(wiring[1..], id) == FindWire(wiring[2..], id);
  }

  /** An aggregator of any other name makes the wire false, and a chip without outputs denies by default. */
  lemma Defaults(id: string, policies: seq<string>, aggregator: string, ctx: Context, depth: nat)
    requires depth >= 1 && aggregator != "ANY" && aggregator != "ALL"
    ensures
      var chip := Chip([Wire(id, Parallel(policies, aggregator))], []);
      && Eval(chip, id, ctx, depth) == Some(Outcome(false, [id]))
      && Decide(chip, ctx, depth) == Some(Decision("deny_invalid_access", "default_deny", "none", []))
  {
  }
}

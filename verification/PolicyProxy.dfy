/**
 The policy proxy's shared state: separately locked cells, written step by step by handlers that run
 concurrently. Each access to a cell is one step, and any interleaving of steps is a run.
 */
module PolicyProxy {
  import opened PolicyEngine
  import opened PolicyDecision
  import opened ShippedPolicies
  import opened Options
  import opened Sets

  // ---------- Loading a chip ----------

  /** Signature check, hash and YAML parser are the libraries' functions. */
  datatype Libraries = Libraries(verifies: (string, string) -> bool, digest: string -> string, parse: string -> Option<Chip>)

  /** The policy file and the fields of its pack; absent texts are empty. */
  datatype Files = Files(yaml: string, id: string, version: string, blake3: string, signature: Option<string>)

  function SignedMessage(files: Files): string {
    "id=" + files.id + "\nversion=" + files.version + "\nblake3=" + files.blake3 + "\n"
  }

  function LoadAndVerify(lib: Libraries, files: Files): Option<Chip> {
    if files.signature == None || !lib.verifies(SignedMessage(files), files.signature.value) then None
    else if lib.digest(files.yaml) != files.blake3 then None
    else lib.parse(files.yaml)
  }

  /** The signature is valid for a message of three lines, the last of which has the hash of this policy. */
  predicate Covers(lib: Libraries, signature: string, id: string, version: string, yaml: string) {
    lib.verifies("id=" + id + "\nversion=" + version + "\nblake3=" + lib.digest(yaml) + "\n", signature)
  }

  /** The chip was parsed from a policy whose hash a valid signature covers. */
  ghost predicate Accepted(lib: Libraries, chip: Chip) {
    exists signature, id, version, yaml :: Covers(lib, signature, id, version, yaml) && lib.parse(yaml) == Some(chip)
  }

  /** A policy loads exactly if its pack names its hash and carries a signature that covers it, and it can be parsed. */
  lemma LoadsIff(lib: Libraries, files: Files, chip: Chip)
    ensures LoadAndVerify(lib, files) == Some(chip) <==>
      && files.blake3 == lib.digest(files.yaml)
      && files.signature != None && Covers(lib, files.signature.value, files.id, files.version, files.yaml)
      && lib.parse(files.yaml) == Some(chip)
  {
  }

  lemma LoadedIsAccepted(lib: Libraries, files: Files)
    requires LoadAndVerify(lib, files) != None
    ensures Accepted(lib, LoadAndVerify(lib, files).value)
  {
    LoadsIff(lib, files, LoadAndVerify(lib, files).value);
    hide Covers, LoadAndVerify;
  }

  // ---------- Cells ----------

  datatype Cells = Cells(chip: Chip, panicUntil: int, panicReason: string, allow: nat, deny: nat, sum: real, max: real, count: nat)

  function Initial(chip: Chip): Cells {
    Cells(chip, 0, "", 0, 0, 0.0, 0.0, 0)
  }

  function WithTime(c: Cells, dt: real): Cells {
    c.(sum := c.sum + dt)
  }

  function WithMax(c: Cells, dt: real, greater: bool): Cells {
    if greater then c.(max := dt) else c
  }

  function WithCount(c: Cells): Cells {
    c.(count := c.count + 1)
  }

  function WithVerdict(c: Cells, allowed: bool): Cells {
    if allowed then c.(allow := c.allow + 1) else c.(deny := c.deny + 1)
  }

  /** A request's own facts, the break-glass cell as it read it, and when. */
  datatype Seen = Seen(facts: Context, panicUntil: int, now: int)

  /** The context of a request: its own facts and the break-glass state at its arrival. */
  function Framed(v: Seen): Context {
    v.facts.(panicMode := v.now <= v.panicUntil)
  }

  /** decide on a chip; None if its wires recur for ever. */
  function DecisionOn(chip: Chip, ctx: Context): Option<Decision> {
    Decide(chip, ctx, Bound(chip))
  }

  predicate Allows(d: Decision) {
    !StartsWith(d.decision, "deny")
  }

  // ---------- Handlers under way ----------

  datatype Evaluation = Evaluation(chip: Chip, seen: Seen, decision: Decision, dt: real)

  datatype Phase =
    | Arrived(facts: Context)
    | InContext(seen: Seen)
    | Holding(chip: Chip, seen: Seen)
    | Evaluated(e: Evaluation)
    | Timed(e: Evaluation)
    | Compared(e: Evaluation, greater: bool)
    | Maximized(e: Evaluation)
    | Counted(e: Evaluation)
    | Closed(e: Evaluation, allowed: bool)

  /** Requests in every phase, loaded chips not installed yet, and break-glass calls between their two writes. */
  datatype Proxy = Proxy(cells: Cells, now: int, requests: map<nat, Phase>, loaded: map<nat, Chip>, reasons: map<nat, string>)

  datatype Step =
    | Arrive(r: nat, facts: Context)
    | ReadPanic(r: nat)
    | ReadChip(r: nat)
    | Evaluate(r: nat, dt: real)
    | AddTime(r: nat)
    | Compare(r: nat)
    | WriteMax(r: nat)
    | Count(r: nat)
    | Conclude(r: nat)
    | Load(h: nat, files: Files)
    | Install(h: nat)
    | PanicOn(h: nat, ttl: int, reason: string)
    | PanicOff(h: nat)
    | WriteReason(h: nat)
    | Tick(seconds: nat)

  predicate At(s: Proxy, a: Step) {
    match a
    case Arrive(r, _) => r !in s.requests
    case ReadPanic(r) => r in s.requests && s.requests[r].Arrived?
    case ReadChip(r) => r in s.requests && s.requests[r].InContext?
    case Evaluate(r, dt) =>
      && dt >= 0.0 && r in s.requests && s.requests[r].Holding?
      && DecisionOn(s.requests[r].chip, Framed(s.requests[r].seen)) != None
    case AddTime(r) => r in s.requests && s.requests[r].Evaluated?
    case Compare(r) => r in s.requests && s.requests[r].Timed?
    case WriteMax(r) => r in s.requests && s.requests[r].Compared?
    case Count(r) => r in s.requests && s.requests[r].Maximized?
    case Conclude(r) => r in s.requests && s.requests[r].Counted?
    case Load(h, _) => h !in s.loaded
    case Install(h) => h in s.loaded
    case PanicOn(h, _, _) => h !in s.reasons
    case PanicOff(h) => h !in s.reasons
    case WriteReason(h) => h in s.reasons
    case Tick(_) => true
  }

  /** The white space Rust's trim removes. */
  predicate WhiteSpace(c: char) {
    var n := c as int;
    || 0x9 <= n <= 0xD || n == 0x20 || n == 0x85 || n == 0xA0 || n == 0x1680 || 0x2000 <= n <= 0x200A
    || n == 0x2028 || n == 0x2029 || n == 0x202F || n == 0x205F || n == 0x3000
  }

  predicate Blank(reason: string) {
    forall i :: 0 <= i < |reason| ==> WhiteSpace(reason[i])
  }

  predicate IsRequestStep(a: Step) {
    !(a.Load? || a.Install? || a.PanicOn? || a.PanicOff? || a.WriteReason? || a.Tick?)
  }

  /** The phase a request enters. */
  function NextPhase(s: Proxy, a: Step): Phase
    requires At(s, a) && IsRequestStep(a)
  {
    match a
    case Arrive(_, facts) => Arrived(facts)
    case ReadPanic(r) => InContext(Seen(s.requests[r].facts, s.cells.panicUntil, s.now))
    case ReadChip(r) => Holding(s.cells.chip, s.requests[r].seen)
    case Evaluate(r, dt) =>
      var p := s.requests[r];
      Evaluated(Evaluation(p.chip, p.seen, DecisionOn(p.chip, Framed(p.seen)).value, dt))
    case AddTime(r) => Timed(s.requests[r].e)
    case Compare(r) => Compared(s.requests[r].e, s.requests[r].e.dt > s.cells.max)
    case WriteMax(r) => Maximized(s.requests[r].e)
    case Count(r) => Counted(s.requests[r].e)
    case Conclude(r) => Closed(s.requests[r].e, Allows(s.requests[r].e.decision))
  }

  function CellsAfter(s: Proxy, a: Step): Cells
    requires At(s, a)
  {
    var c := s.cells;
    match a
    case AddTime(r) => WithTime(c, s.requests[r].e.dt)
    case WriteMax(r) => WithMax(c, s.requests[r].e.dt, s.requests[r].greater)
    case Count(_) => WithCount(c)
    case Conclude(r) => WithVerdict(c, Allows(s.requests[r].e.decision))
    case Install(h) => c.(chip := s.loaded[h])
    case PanicOn(_, ttl, reason) => if ttl <= 0 || Blank(reason) then c else c.(panicUntil := s.now + ttl)
    case PanicOff(_) => c.(panicUntil := 0)
    case WriteReason(h) => c.(panicReason := s.reasons[h])
    case _ => c
  }

  function After(lib: Libraries, s: Proxy, a: Step): Proxy
    requires At(s, a)
  {
    var t := s.(cells := CellsAfter(s, a));
    match a
    case Load(h, files) =>
      var chip := LoadAndVerify(lib, files);
      if chip == None then t else t.(loaded := s.loaded[h := chip.value])
    case Install(h) => t.(loaded := s.loaded - {h})
    case PanicOn(h, ttl, reason) => if ttl <= 0 || Blank(reason) then t else t.(reasons := s.reasons[h := reason])
    case PanicOff(h) => t.(reasons := s.reasons[h := ""])
    case WriteReason(h) => t.(reasons := s.reasons - {h})
    case Tick(seconds) => t.(now := s.now + seconds)
    case _ => t.(requests := s.requests[a.r := NextPhase(s, a)])
  }

  predicate Runs(lib: Libraries, s: Proxy, run: seq<Step>)
    decreases |run|
  {
    run == [] || (At(s, run[0]) && Runs(lib, After(lib, s, run[0]), run[1..]))
  }

  function End(lib: Libraries, s: Proxy, run: seq<Step>): Proxy
    requires Runs(lib, s, run)
    decreases |run|
  {
    if run == [] then s else End(lib, After(lib, s, run[0]), run[1..])
  }

  function Start(chip: Chip, now: int): Proxy {
    Proxy(Initial(chip), now, map[], map[], map[])
  }

  // ---------- Counting requests ----------

  datatype Group = Uncounted | Between | AllowedGroup | DeniedGroup

  function GroupOf(p: Phase): Group {
    if p.Counted? then Between
    else if p.Closed? then if p.allowed then AllowedGroup else DeniedGroup
    else Uncounted
  }

  function Members(requests: map<nat, Phase>, g: Group): set<nat> {
    set r | r in requests && GroupOf(requests[r]) == g
  }

  lemma MembersUpdated(requests: map<nat, Phase>, r: nat, p: Phase, g: Group)
    ensures Members(requests[r := p], g) - {r} == Members(requests, g) - {r}
    ensures r in Members(requests[r := p], g) <==> GroupOf(p) == g
    ensures r in Members(requests, g) <==> r in requests && GroupOf(requests[r]) == g
  {
    hide GroupOf;
  }

  lemma MemberMoves(requests: map<nat, Phase>, r: nat, p: Phase, g: Group)
    ensures
      |Members(requests[r := p], g)| == |Members(requests, g)|
        - (if r in requests && GroupOf(requests[r]) == g then 1 else 0)
        + (if GroupOf(p) == g then 1 else 0)
  {
    MembersUpdated(requests, r, p, g);
    hide GroupOf, Members;
    SizeWithout(Members(requests, g), r);
    SizeWithout(Members(requests[r := p], g), r);
  }

  /** The counters count the requests that have passed their updates. */
  ghost predicate CountersRight(s: Proxy) {
    && s.cells.allow == |Members(s.requests, AllowedGroup)|
    && s.cells.deny == |Members(s.requests, DeniedGroup)|
    && s.cells.count == s.cells.allow + s.cells.deny + |Members(s.requests, Between)|
  }

  lemma StepCounts(lib: Libraries, s: Proxy, a: Step)
    requires CountersRight(s) && At(s, a)
    ensures CountersRight(After(lib, s, a))
  {
    var t := After(lib, s, a);
    if IsRequestStep(a) {
      RequestCounts(lib, s, a);
    } else {
      assert t.requests == s.requests;
    }
  }

  lemma RequestCounts(lib: Libraries, s: Proxy, a: Step)
    requires CountersRight(s) && At(s, a)
    requires IsRequestStep(a)
    ensures CountersRight(After(lib, s, a))
  {
    var p := NextPhase(s, a);
    MemberMoves(s.requests, a.r, p, Between);
    MemberMoves(s.requests, a.r, p, AllowedGroup);
    MemberMoves(s.requests, a.r, p, DeniedGroup);
    hide Members, DecisionOn, Allows;
  }

  // ---------- Verdicts ----------

  /** What a request in this phase has seen: one accepted chip, and the decision on it. */
  ghost predicate PhaseRight(lib: Libraries, p: Phase) {
    match p
    case Arrived(_) => true
    case InContext(_) => true
    case Holding(chip, _) => Accepted(lib, chip)
    case Closed(e, allowed) => EvaluationRight(lib, e) && allowed == Allows(e.decision)
    case _ => EvaluationRight(lib, p.e)
  }

  ghost predicate EvaluationRight(lib: Libraries, e: Evaluation) {
    Accepted(lib, e.chip) && DecisionOn(e.chip, Framed(e.seen)) == Some(e.decision)
  }

  ghost predicate ChipsRight(lib: Libraries, s: Proxy) {
    && Accepted(lib, s.cells.chip)
    && (forall h :: h in s.loaded ==> Accepted(lib, s.loaded[h]))
    && forall r :: r in s.requests ==> PhaseRight(lib, s.requests[r])
  }

  lemma StepVerdicts(lib: Libraries, s: Proxy, a: Step)
    requires ChipsRight(lib, s) && At(s, a)
    ensures ChipsRight(lib, After(lib, s, a))
  {
    hide Accepted, DecisionOn, LoadAndVerify;
    match a
    case Load(h, files) =>
      if LoadAndVerify(lib, files) != None {
        LoadedIsAccepted(lib, files);
      }
    case _ =>
  }

  lemma {:induction false} RunsAreRight(lib: Libraries, s: Proxy, run: seq<Step>)
    requires CountersRight(s) && ChipsRight(lib, s) && Runs(lib, s, run)
    ensures CountersRight(End(lib, s, run)) && ChipsRight(lib, End(lib, s, run))
    decreases |run|
  {
    if run != [] {
      StepCounts(lib, s, run[0]);
      StepVerdicts(lib, s, run[0]);
      hide CountersRight, ChipsRight, At, After;
      RunsAreRight(lib, After(lib, s, run[0]), run[1..]);
    }
  }

  // ---------- Where a verdict comes from ----------

  /** The state before the i-th step of the run. */
  function StateAt(lib: Libraries, s: Proxy, run: seq<Step>, i: nat): Proxy
    requires Runs(lib, s, run) && i <= |run|
    decreases |run|
  {
    if i == 0 then s else StateAt(lib, After(lib, s, run[0]), run[1..], i - 1)
  }

  /** What a request has learned so far: its facts, what it saw of break-glass, and its chip. */
  datatype Known = Known(facts: Option<Context>, seen: Option<Seen>, chip: Option<Chip>)

  function KnownOf(s: Proxy, r: nat): Known {
    if r !in s.requests then Known(None, None, None)
    else match s.requests[r]
      case Arrived(facts) => Known(Some(facts), None, None)
      case InContext(seen) => Known(Some(seen.facts), Some(seen), None)
      case Holding(chip, seen) => Known(Some(seen.facts), Some(seen), Some(chip))
      case _ => Known(Some(s.requests[r].e.seen.facts), Some(s.requests[r].e.seen), Some(s.requests[r].e.chip))
  }

  /** A step by which the request learns something is the one that reads it, and reads the present value. */
  ghost predicate Learns(s: Proxy, a: Step, r: nat, before: Known, after: Known) {
    && (before.facts != None ==> after.facts == before.facts)
    && (before.seen != None ==> after.seen == before.seen)
    && (before.chip != None ==> after.chip == before.chip)
    && (before.facts == None && after.facts != None ==> a == Arrive(r, after.facts.value))
    && (before.seen == None && after.seen != None ==>
         a == ReadPanic(r) && after.seen.value.panicUntil == s.cells.panicUntil && after.seen.value.now == s.now
         && Some(after.seen.value.facts) == before.facts)
    && (before.chip == None && after.chip != None ==> a == ReadChip(r) && after.chip.value == s.cells.chip)
  }

  lemma StepLearns(lib: Libraries, s: Proxy, a: Step, r: nat)
    requires At(s, a)
    ensures Learns(s, a, r, KnownOf(s, r), KnownOf(After(lib, s, a), r))
  {
    hide DecisionOn, LoadAndVerify, Blank;
  }

  lemma {:induction false} KnownStays(lib: Libraries, s: Proxy, run: seq<Step>, r: nat)
    requires Runs(lib, s, run)
    ensures
      var k, l := KnownOf(s, r), KnownOf(End(lib, s, run), r);
      && (k.facts != None ==> l.facts == k.facts) && (k.seen != None ==> l.seen == k.seen)
      && (k.chip != None ==> l.chip == k.chip)
    decreases |run|
  {
    if run != [] {
      StepLearns(lib, s, run[0], r);
      hide At, After, KnownOf;
      KnownStays(lib, After(lib, s, run[0]), run[1..], r);
    }
  }

  ghost predicate ArrivesAt(lib: Libraries, s: Proxy, run: seq<Step>, r: nat, facts: Context, i: nat)
    requires Runs(lib, s, run)
  {
    i < |run| && run[i] == Arrive(r, facts)
  }

  ghost predicate SeesAt(lib: Libraries, s: Proxy, run: seq<Step>, r: nat, seen: Seen, i: nat)
    requires Runs(lib, s, run)
  {
    && i < |run| && run[i] == ReadPanic(r)
    && StateAt(lib, s, run, i).cells.panicUntil == seen.panicUntil && StateAt(lib, s, run, i).now == seen.now
  }

  ghost predicate TakesAt(lib: Libraries, s: Proxy, run: seq<Step>, r: nat, chip: Chip, i: nat)
    requires Runs(lib, s, run)
  {
    i < |run| && run[i] == ReadChip(r) && StateAt(lib, s, run, i).cells.chip == chip
  }

  lemma {:induction false} FactsFromRun(lib: Libraries, s: Proxy, run: seq<Step>, r: nat) returns (i: nat)
    requires Runs(lib, s, run) && KnownOf(s, r).facts == None && KnownOf(End(lib, s, run), r).facts != None
    ensures ArrivesAt(lib, s, run, r, KnownOf(End(lib, s, run), r).facts.value, i)
    decreases |run|
  {
    var t := After(lib, s, run[0]);
    StepLearns(lib, s, run[0], r);
    hide At, After, KnownOf;
    if KnownOf(t, r).facts != None {
      KnownStays(lib, t, run[1..], r);
      i := 0;
    } else {
      i := FactsFromRun(lib, t, run[1..], r);
      i := i + 1;
    }
  }

  lemma {:induction false} SeenFromRun(lib: Libraries, s: Proxy, run: seq<Step>, r: nat) returns (i: nat)
    requires Runs(lib, s, run) && KnownOf(s, r).seen == None && KnownOf(End(lib, s, run), r).seen != None
    ensures SeesAt(lib, s, run, r, KnownOf(End(lib, s, run), r).seen.value, i)
    decreases |run|
  {
    var t := After(lib, s, run[0]);
    StepLearns(lib, s, run[0], r);
    hide At, After, KnownOf;
    if KnownOf(t, r).seen != None {
      KnownStays(lib, t, run[1..], r);
      i := 0;
    } else {
      i := SeenFromRun(lib, t, run[1..], r);
      i := i + 1;
    }
  }

  lemma {:induction false} ChipFromRun(lib: Libraries, s: Proxy, run: seq<Step>, r: nat) returns (i: nat)
    requires Runs(lib, s, run) && KnownOf(s, r).chip == None && KnownOf(End(lib, s, run), r).chip != None
    ensures TakesAt(lib, s, run, r, KnownOf(End(lib, s, run), r).chip.value, i)
    decreases |run|
  {
    var t := After(lib, s, run[0]);
    StepLearns(lib, s, run[0], r);
    hide At, After, KnownOf;
    if KnownOf(t, r).chip != None {
      KnownStays(lib, t, run[1..], r);
      i := 0;
    } else {
      i := ChipFromRun(lib, t, run[1..], r);
      i := i + 1;
    }
  }

  /** The request arrived with these facts and read break-glass and chip at some steps of the run, as they then were. */
  ghost predicate Traced(lib: Libraries, s: Proxy, run: seq<Step>, r: nat, e: Evaluation)
    requires Runs(lib, s, run)
  {
    && (exists i :: ArrivesAt(lib, s, run, r, e.seen.facts, i))
    && (exists i :: SeesAt(lib, s, run, r, e.seen, i))
    && (exists i :: TakesAt(lib, s, run, r, e.chip, i))
  }

  lemma ClosedIsTraced(lib: Libraries, s: Proxy, run: seq<Step>, r: nat)
    requires Runs(lib, s, run) && s.requests == map[]
    requires r in End(lib, s, run).requests && End(lib, s, run).requests[r].Closed?
    ensures Traced(lib, s, run, r, End(lib, s, run).requests[r].e)
  {
    var i := FactsFromRun(lib, s, run, r);
    var j := SeenFromRun(lib, s, run, r);
    var k := ChipFromRun(lib, s, run, r);
  }

  lemma BetweenIsCounted(requests: map<nat, Phase>)
    ensures Members(requests, Between) == set r | r in requests && requests[r].Counted?
  {
  }

  lemma StartIsRight(lib: Libraries, chip: Chip, now: int)
    requires Accepted(lib, chip)
    ensures CountersRight(Start(chip, now)) && ChipsRight(lib, Start(chip, now))
  {
    hide Accepted;
    var s := Start(chip, now);
    assert Members(s.requests, Between) == Members(s.requests, AllowedGroup) == Members(s.requests, DeniedGroup) == {};
  }

  /**
   In every reachable state, eval_count is allow_total plus deny_total plus the requests between
   their count and their verdict. Each verdict is decide on one chip snapshot that a valid signature
   covers, read from the cell at one step of the run whatever reloads came around it, in the context
   of the request's own facts and of the break-glass state it read at another step.
   */
  lemma ProxyIsRight(lib: Libraries, chip: Chip, now: int, run: seq<Step>)
    requires Accepted(lib, chip) && Runs(lib, Start(chip, now), run)
    ensures
      var s := End(lib, Start(chip, now), run);
      && s.cells.count == s.cells.allow + s.cells.deny + |set r | r in s.requests && s.requests[r].Counted?|
      && forall r :: r in s.requests && s.requests[r].Closed? ==>
           var e := s.requests[r].e;
           && Accepted(lib, e.chip) && Traced(lib, Start(chip, now), run, r, e)
           && DecisionOn(e.chip, Framed(e.seen)) == Some(e.decision)
           && (s.requests[r].allowed <==> !StartsWith(e.decision.decision, "deny"))
  {
    StartIsRight(lib, chip, now);
    assert Start(chip, now).requests == map[];
    hide Accepted, DecisionOn, End, Runs, Start, Traced, Framed;
    RunsAreRight(lib, Start(chip, now), run);
    var s := End(lib, Start(chip, now), run);
    BetweenIsCounted(s.requests);
    hide Members;
    forall r | r in s.requests && s.requests[r].Closed?
      ensures PhaseRight(lib, s.requests[r]) && Traced(lib, Start(chip, now), run, r, s.requests[r].e)
    {
      ClosedIsTraced(lib, Start(chip, now), run, r);
    }
  }

  // ---------- Version 3 of the shipped policy ----------

  ghost predicate OnlyChip(s: Proxy, chip: Chip) {
    && s.cells.chip == chip && s.loaded == map[]
    && forall r :: r in s.requests ==> ChipOf(s.requests[r]) in {None, Some(chip)}
  }

  function ChipOf(p: Phase): Option<Chip> {
    match p
    case Arrived(_) => None
    case InContext(_) => None
    case Holding(chip, _) => Some(chip)
    case _ => Some(p.e.chip)
  }

  predicate NoReload(run: seq<Step>) {
    forall i :: 0 <= i < |run| ==> !run[i].Load?
  }

  lemma {:induction false} OnlyChipStays(lib: Libraries, s: Proxy, run: seq<Step>, chip: Chip)
    requires OnlyChip(s, chip) && Runs(lib, s, run) && NoReload(run)
    ensures OnlyChip(End(lib, s, run), chip)
    decreases |run|
  {
    if run != [] {
      OnlyChipStep(lib, s, run[0], chip);
      assert NoReload(run[1..]);
      hide OnlyChip, At, After;
      OnlyChipStays(lib, After(lib, s, run[0]), run[1..], chip);
    }
  }

  lemma OnlyChipStep(lib: Libraries, s: Proxy, a: Step, chip: Chip)
    requires OnlyChip(s, chip) && At(s, a) && !a.Load?
    ensures OnlyChip(After(lib, s, a), chip)
  {
    hide DecisionOn;
  }

  /** With version 3 of the policy loaded and not replaced, no request is ever allowed. */
  lemma CoreV3NeverAllows(lib: Libraries, now: int, run: seq<Step>)
    requires Accepted(lib, CORE_V3) && Runs(lib, Start(CORE_V3, now), run) && NoReload(run)
    ensures End(lib, Start(CORE_V3, now), run).cells.allow == 0
  {
    StartIsRight(lib, CORE_V3, now);
    hide Accepted, CountersRight, ChipsRight, Runs, End;
    RunsAreRight(lib, Start(CORE_V3, now), run);
    OnlyChipStays(lib, Start(CORE_V3, now), run, CORE_V3);
    NoneAllowed(lib, End(lib, Start(CORE_V3, now), run));
  }

  lemma NoneAllowed(lib: Libraries, s: Proxy)
    requires CountersRight(s) && ChipsRight(lib, s) && OnlyChip(s, CORE_V3)
    ensures s.cells.allow == 0
  {
    hide Accepted, DecisionOn, Allows, CORE_V3;
    forall r | r in s.requests ensures GroupOf(s.requests[r]) != AllowedGroup {
      var p := s.requests[r];
      assert PhaseRight(lib, p) && ChipOf(p) in {None, Some(CORE_V3)};
      if p.Closed? {
        assert p.e.chip == CORE_V3;
        CoreV3Denies(Framed(p.e.seen));
      }
    }
    hide GroupOf;
    assert Members(s.requests, AllowedGroup) == {};
  }

  lemma CoreV3Denies(ctx: Context)
    ensures DecisionOn(CORE_V3, ctx) != None && !Allows(DecisionOn(CORE_V3, ctx).value)
  {
    hide Decide;
    assert Bound(CORE_V3) > 0;
    CoreV3DeniesEverything(ctx, Bound(CORE_V3));
  }

  // ---------- Building runs ----------

  lemma FirstStep(lib: Libraries, s: Proxy, a: Step, rest: seq<Step>)
    requires At(s, a)
    ensures Runs(lib, s, [a] + rest) <==> Runs(lib, After(lib, s, a), rest)
    ensures Runs(lib, After(lib, s, a), rest) ==> End(lib, s, [a] + rest) == End(lib, After(lib, s, a), rest)
  {
    assert ([a] + rest)[1..] == rest;
  }

  lemma NoStep(lib: Libraries, s: Proxy)
    ensures Runs(lib, s, []) && End(lib, s, []) == s
  {
  }

  // ---------- One handler alone ----------

  /** What a request does to the cells when no other handler runs in between. */
  function Forwarded(c: Cells, e: Evaluation): Cells {
    WithVerdict(WithCount(WithMax(WithTime(c, e.dt), e.dt, e.dt > c.max)), Allows(e.decision))
  }

  class SharedState {
    var chip: Chip
    var panicUntil: int
    var panicReason: string
    var allow: nat
    var deny: nat
    var sum: real
    var max: real
    var count: nat

    ghost function Contents(): Cells
      reads this
    {
      Cells(chip, panicUntil, panicReason, allow, deny, sum, max, count)
    }

    constructor (chip: Chip)
      ensures Contents() == Initial(chip)
    {
      this.chip, panicUntil, panicReason, allow, deny, sum, max, count := chip, 0, "", 0, 0, 0.0, 0.0, 0;
    }

    /** A policy that does not load leaves the chip in place. */
    method Reload(lib: Libraries, files: Files) returns (ok: bool)
      modifies this`chip
      ensures ok == (LoadAndVerify(lib, files) != None)
      ensures chip == if ok then LoadAndVerify(lib, files).value else old(chip)
    {
      var loaded := LoadAndVerify(lib, files);
      ok := loaded != None;
      if ok {
        chip := loaded.value;
      }
    }

    method PanicOn(ttl: int, reason: string, now: int) returns (ok: bool)
      modifies this`panicUntil, this`panicReason
      ensures ok == (ttl > 0 && !Blank(reason))
      ensures if ok then panicUntil == now + ttl && panicReason == reason
              else panicUntil == old(panicUntil) && panicReason == old(panicReason)
    {
      ok := ttl > 0 && !Blank(reason);
      if ok {
        panicUntil := now + ttl;
        panicReason := reason;
      }
    }

    method PanicOff()
      modifies this`panicUntil, this`panicReason
      ensures panicUntil == 0 && panicReason == ""
    {
      panicUntil := 0;
      panicReason := "";
    }

    method Forward(facts: Context, now: int, dt: real) returns (allowed: bool)
      requires DecisionOn(chip, Framed(Seen(facts, panicUntil, now))) != None
      modifies this`allow, this`deny, this`sum, this`max, this`count
      ensures
        var seen := old(Seen(facts, panicUntil, now));
        var d := DecisionOn(chip, Framed(seen)).value;
        Contents() == Forwarded(old(Contents()), Evaluation(chip, seen, d, dt)) && allowed == Allows(d)
    {
      var ctx := Framed(Seen(facts, panicUntil, now));
      var held := chip;
      var d := RunDecide(held, ctx, Bound(held));
      sum := sum + dt;
      if dt > max {
        max := dt;
      }
      count := count + 1;
      if StartsWith(d.decision, "deny") {
        deny := deny + 1;
        return false;
      }
      allow := allow + 1;
      allowed := true;
    }
  }

  /** The state with request r in phase p and these cells. */
  function With(s: Proxy, r: nat, p: Phase, c: Cells): Proxy {
    s.(requests := s.requests[r := p], cells := c)
  }

  lemma ThenStep(lib: Libraries, s: Proxy, r: nat, p: Phase, c: Cells, a: Step, q: Phase, d: Cells, rest: seq<Step>)
    requires IsRequestStep(a) && a.r == r && At(With(s, r, p, c), a)
    requires NextPhase(With(s, r, p, c), a) == q && CellsAfter(With(s, r, p, c), a) == d
    requires Runs(lib, With(s, r, q, d), rest)
    ensures Runs(lib, With(s, r, p, c), [a] + rest)
    ensures End(lib, With(s, r, p, c), [a] + rest) == End(lib, With(s, r, q, d), rest)
  {
    assert s.requests[r := p][r := q] == s.requests[r := q];
    assert After(lib, With(s, r, p, c), a) == With(s, r, q, d);
    hide At, After, Runs, End, NextPhase, CellsAfter;
    FirstStep(lib, With(s, r, p, c), a, rest);
  }

  lemma FromComparison(lib: Libraries, s: Proxy, r: nat, e: Evaluation, greater: bool, c: Cells)
    ensures
      var run := [WriteMax(r), Count(r), Conclude(r)];
      && Runs(lib, With(s, r, Compared(e, greater), c), run)
      && End(lib, With(s, r, Compared(e, greater), c), run).cells
         == WithVerdict(WithCount(WithMax(c, e.dt, greater)), Allows(e.decision))
  {
    hide DecisionOn, Runs, End, After;
    var c2 := WithMax(c, e.dt, greater);
    var c3 := WithCount(c2);
    var c4 := WithVerdict(c3, Allows(e.decision));
    var done := Closed(e, Allows(e.decision));
    NoStep(lib, With(s, r, done, c4));
    ThenStep(lib, s, r, Counted(e), c3, Conclude(r), done, c4, []);
    ThenStep(lib, s, r, Maximized(e), c2, Count(r), Counted(e), c3, [Conclude(r)] + []);
    var rest := [Count(r)] + ([Conclude(r)] + []);
    ThenStep(lib, s, r, Compared(e, greater), c, WriteMax(r), Maximized(e), c2, rest);
    assert [WriteMax(r)] + rest == [WriteMax(r), Count(r), Conclude(r)];
  }

  /** From its evaluation on, a request alone makes five more steps. */
  lemma FromEvaluation(lib: Libraries, s: Proxy, r: nat, e: Evaluation, c: Cells)
    ensures
      var run := [AddTime(r), Compare(r), WriteMax(r), Count(r), Conclude(r)];
      Runs(lib, With(s, r, Evaluated(e), c), run) && End(lib, With(s, r, Evaluated(e), c), run).cells == Forwarded(c, e)
  {
    hide DecisionOn, Runs, End, After;
    var c1 := WithTime(c, e.dt);
    var rest := [WriteMax(r), Count(r), Conclude(r)];
    FromComparison(lib, s, r, e, e.dt > c.max, c1);
    ThenStep(lib, s, r, Timed(e), c1, Compare(r), Compared(e, e.dt > c.max), c1, rest);
    ThenStep(lib, s, r, Evaluated(e), c, AddTime(r), Timed(e), c1, [Compare(r)] + rest);
    assert [AddTime(r)] + ([Compare(r)] + rest) == [AddTime(r), Compare(r), WriteMax(r), Count(r), Conclude(r)];
  }

  /** What a request evaluates to if nothing changes meanwhile. */
  function EvaluationNow(s: Proxy, facts: Context, dt: real): Evaluation
    requires DecisionOn(s.cells.chip, Framed(Seen(facts, s.cells.panicUntil, s.now))) != None
  {
    var seen := Seen(facts, s.cells.panicUntil, s.now);
    Evaluation(s.cells.chip, seen, DecisionOn(s.cells.chip, Framed(seen)).value, dt)
  }

  function ToEvaluation(r: nat, facts: Context, dt: real): seq<Step> {
    [Arrive(r, facts), ReadPanic(r), ReadChip(r), Evaluate(r, dt)]
  }

  /** A request comes alone to its evaluation in four steps. */
  lemma ComesToEvaluation(lib: Libraries, s: Proxy, r: nat, facts: Context, dt: real, rest: seq<Step>)
    requires r !in s.requests && dt >= 0.0
    requires DecisionOn(s.cells.chip, Framed(Seen(facts, s.cells.panicUntil, s.now))) != None
    requires Runs(lib, With(s, r, Evaluated(EvaluationNow(s, facts, dt)), s.cells), rest)
    ensures Runs(lib, s, ToEvaluation(r, facts, dt) + rest)
    ensures End(lib, s, ToEvaluation(r, facts, dt) + rest) ==
            End(lib, With(s, r, Evaluated(EvaluationNow(s, facts, dt)), s.cells), rest)
  {
    hide DecisionOn, Runs, End, Framed;
    var seen, c := Seen(facts, s.cells.panicUntil, s.now), s.cells;
    var e := EvaluationNow(s, facts, dt);
    var r3 := [Evaluate(r, dt)] + rest;
    var r2 := [ReadChip(r)] + r3;
    var r1 := [ReadPanic(r)] + r2;
    ThenStep(lib, s, r, Holding(c.chip, seen), c, Evaluate(r, dt), Evaluated(e), c, rest);
    ThenStep(lib, s, r, InContext(seen), c, ReadChip(r), Holding(c.chip, seen), c, r3);
    ThenStep(lib, s, r, Arrived(facts), c, ReadPanic(r), InContext(seen), c, r2);
    assert After(lib, s, Arrive(r, facts)) == With(s, r, Arrived(facts), c);
    FirstStep(lib, s, Arrive(r, facts), r1);
    assert [Arrive(r, facts)] + r1 == ToEvaluation(r, facts, dt) + rest;
  }

  /** The handler alone is the run of its nine steps. */
  lemma ForwardIsARun(lib: Libraries, s: Proxy, r: nat, facts: Context, dt: real)
    requires r !in s.requests && dt >= 0.0
    requires DecisionOn(s.cells.chip, Framed(Seen(facts, s.cells.panicUntil, s.now))) != None
    ensures
      var run := ToEvaluation(r, facts, dt) + [AddTime(r), Compare(r), WriteMax(r), Count(r), Conclude(r)];
      Runs(lib, s, run) && End(lib, s, run).cells == Forwarded(s.cells, EvaluationNow(s, facts, dt))
  {
    hide DecisionOn, Runs, End, Framed, Forwarded;
    var rest := [AddTime(r), Compare(r), WriteMax(r), Count(r), Conclude(r)];
    FromEvaluation(lib, s, r, EvaluationNow(s, facts, dt), s.cells);
    ComesToEvaluation(lib, s, r, facts, dt, rest);
  }

  /** So does a reload alone: until its second step requests decide on the old chip, from then on on the new one. */
  lemma ReloadIsARun(lib: Libraries, s: Proxy, h: nat, files: Files)
    requires h !in s.loaded
    ensures
      var chip := LoadAndVerify(lib, files);
      if chip == None then Runs(lib, s, [Load(h, files)]) && End(lib, s, [Load(h, files)]) == s
      else
        && At(s, Load(h, files)) && After(lib, s, Load(h, files)).cells == s.cells
        && Runs(lib, s, [Load(h, files), Install(h)])
        && End(lib, s, [Load(h, files), Install(h)]) == s.(cells := s.cells.(chip := chip.value))
  {
    hide LoadAndVerify, Runs, End;
    var t := After(lib, s, Load(h, files));
    if LoadAndVerify(lib, files) == None {
      NoStep(lib, t);
      FirstStep(lib, s, Load(h, files), []);
      assert [Load(h, files)] + [] == [Load(h, files)];
    } else {
      var u := After(lib, t, Install(h));
      assert u.loaded == s.loaded;
      TwoSteps(lib, s, Load(h, files), Install(h));
    }
  }

  /** And the calls that set and clear break-glass. */
  lemma BreakGlassIsARun(lib: Libraries, s: Proxy, h: nat, ttl: int, reason: string)
    requires h !in s.reasons && ttl > 0 && !Blank(reason)
    ensures Runs(lib, s, [PanicOn(h, ttl, reason), WriteReason(h)]) && Runs(lib, s, [PanicOff(h), WriteReason(h)])
    ensures End(lib, s, [PanicOn(h, ttl, reason), WriteReason(h)])
         == s.(cells := s.cells.(panicUntil := s.now + ttl, panicReason := reason))
    ensures End(lib, s, [PanicOff(h), WriteReason(h)]) == s.(cells := s.cells.(panicUntil := 0, panicReason := ""))
  {
    hide Blank, Runs, End;
    var t, u := After(lib, s, PanicOn(h, ttl, reason)), After(lib, s, PanicOff(h));
    assert t.reasons - {h} == s.reasons && u.reasons - {h} == s.reasons;
    TwoSteps(lib, s, PanicOn(h, ttl, reason), WriteReason(h));
    TwoSteps(lib, s, PanicOff(h), WriteReason(h));
  }

  lemma TwoSteps(lib: Libraries, s: Proxy, a: Step, b: Step)
    requires At(s, a) && At(After(lib, s, a), b)
    ensures Runs(lib, s, [a, b]) && End(lib, s, [a, b]) == After(lib, After(lib, s, a), b)
  {
    hide At, After, Runs, End;
    var t := After(lib, s, a);
    NoStep(lib, After(lib, t, b));
    FirstStep(lib, t, b, []);
    FirstStep(lib, s, a, [b]);
    assert [b] + [] == [b] && [a] + [b] == [a, b];
  }
}

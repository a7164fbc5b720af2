/**
 Refresh-token rotation as a protocol between the core API and the auth-worker. Every step is one
 statement on one table: a refresh selects the row of its token, marks it used and creates the next
 token; a first token takes an identification, a query for revocation and a creation; a revocation
 deletes the session and then its tokens. The results hold over every interleaving.
 */
module TokenRotation {
  import opened TokenTables
  import opened Options
  import opened Sets

  /** The owner of requests identified by an access assertion instead of a session. */
  const ACCESS_OWNER := Owner("access-user", "access-session")

  /** A request between two of its steps. */
  datatype Flight =
    | Selected(row: Row, line: nat)
    | Marked(owner: Owner, line: nat)
    | Minting(owner: Owner)
    | Cleared(owner: Owner)

  /**
   The tables, the clock, the requests in flight and the revocations between their two deletions, and
   the history: to which rotation lineage each token ever stored belongs, how many lineages there are,
   which tokens some request has validated, and the session and row ids drawn so far.
   */
  datatype System = System(tables: Tables, now: int, flights: map<nat, Flight>, revoking: map<nat, string>,
                           line: map<string, nat>, lines: nat, spent: set<string>, sessions: set<string>, ids: set<string>)

  datatype Step =
    | Login(session: string, user: string, expiresAt: int)
    | Identify(session: string, flight: nat)
    | IdentifyAccess(flight: nat)
    | AskRevoked(flight: nat, reply: Option<bool>)
    | Select(hash: string, flight: nat)
    | Mark(flight: nat)
    | Create(flight: nat, id: string, hash: string, expiresAt: int)
    | Drop(flight: nat)
    | Revoke(handler: nat, jti: string, session: string)
    | Sweep(handler: nat)
    | Tick(seconds: nat)

  function SessionOf(f: Flight): string {
    if f.Selected? then f.row.session else f.owner.session
  }

  /** Session ids, row ids and tokens are freshly drawn; a request's number is not in use. */
  predicate Enabled(s: System, a: Step) {
    match a
    case Login(session, _, _) => session !in s.sessions && session != "" && session != ACCESS_OWNER.session
    case Identify(_, flight) => flight !in s.flights
    case IdentifyAccess(flight) => flight !in s.flights
    case AskRevoked(flight, reply) =>
      && flight in s.flights && s.flights[flight].Minting?
      && (reply != None ==> reply.value == SessionRevoked(s.tables, s.flights[flight].owner.session, s.now))
    case Select(_, flight) => flight !in s.flights
    case Mark(flight) => flight in s.flights && s.flights[flight].Selected?
    case Create(flight, id, hash, _) =>
      && flight in s.flights && (s.flights[flight].Marked? || s.flights[flight].Cleared?)
      && hash !in s.line && id !in s.ids
    case Drop(flight) => flight in s.flights
    case Revoke(handler, _, _) => handler !in s.revoking
    case Sweep(handler) => handler in s.revoking
    case Tick(_) => true
  }

  function OwnerOfRow(row: Row): Owner {
    Owner(row.user, row.session)
  }

  function LineOf(s: System, hash: string): nat {
    if hash in s.line then s.line[hash] else s.lines
  }

  function Put(s: System, flight: nat, f: Flight): System {
    s.(flights := s.flights[flight := f])
  }

  function Remove(s: System, flight: nat): System {
    s.(flights := s.flights - {flight})
  }

  function After(s: System, a: Step): System
    requires Enabled(s, a)
  {
    match a
    case Login(session, user, expiresAt) =>
      s.(tables := s.tables.(sessions := s.tables.sessions[session := SessionRow(user, expiresAt)]),
         sessions := s.sessions + {session})
    case Identify(session, flight) =>
      var owner := SessionOwner(s.tables, session, s.now);
      if owner == None then s else Put(s, flight, Minting(owner.value))
    case IdentifyAccess(flight) => Put(s, flight, Minting(ACCESS_OWNER))
    case AskRevoked(flight, reply) =>
      if MintRefused(reply) then Remove(s, flight) else Put(s, flight, Cleared(s.flights[flight].owner))
    case Select(hash, flight) =>
      var i := FirstLive(s.tables.tokens, hash, s.now);
      if i == |s.tables.tokens| then s else Put(s, flight, Selected(s.tables.tokens[i], LineOf(s, hash)))
    case Mark(flight) =>
      var f := s.flights[flight];
      Put(s, flight, Marked(OwnerOfRow(f.row), f.line)).(
        tables := MarkRow(s.tables, f.row.id, s.now), spent := s.spent + {f.row.hash})
    case Create(flight, id, hash, expiresAt) =>
      var f := s.flights[flight];
      Remove(s, flight).(
        tables := Created(s.tables, id, f.owner, hash, expiresAt), ids := s.ids + {id},
        line := s.line[hash := if f.Marked? then f.line else s.lines], lines := if f.Marked? then s.lines else s.lines + 1)
    case Drop(flight) => Remove(s, flight)
    case Revoke(handler, jti, session) =>
      s.(tables := DeleteSession(AddRevocation(s.tables, jti, s.now), session), sessions := s.sessions + {session},
         revoking := if session == "" then s.revoking else s.revoking[handler := session])
    case Sweep(handler) => s.(tables := DeleteTokens(s.tables, s.revoking[handler]), revoking := s.revoking - {handler})
    case Tick(seconds) => s.(now := s.now + seconds)
  }

  predicate Runs(s: System, run: seq<Step>)
    decreases |run|
  {
    run == [] || (Enabled(s, run[0]) && Runs(After(s, run[0]), run[1..]))
  }

  function End(s: System, run: seq<Step>): System
    requires Runs(s, run)
    decreases |run|
  {
    if run == [] then s else End(After(s, run[0]), run[1..])
  }

  function Start(now: int): System {
    System(Tables(map[], [], map[]), now, map[], map[], map[], 0, {}, {}, {})
  }

  // ---------- What every step keeps ----------

  predicate Unused(row: Row) {
    row.usedAt == None
  }

  /** Neither a token nor a row id occurs in two different rows. */
  ghost predicate RowsDistinct(tokens: seq<Row>) {
    forall r, q :: r in tokens && q in tokens && (r.hash == q.hash || r.id == q.id) ==> r == q
  }

  /** Rows are recorded in the history, and a row whose token was validated is marked. */
  ghost predicate RowsRecorded(s: System) {
    && (forall r :: r in s.tables.tokens ==> r.hash in s.line && r.id in s.ids && (r.hash in s.spent ==> !Unused(r)))
    && (forall h :: h in s.line ==> s.line[h] < s.lines)
    && (forall h :: h in s.spent ==> h in s.line)
  }

  /** A selected row is a row of the history, the one with its token and its id if still stored. */
  ghost predicate FlightRecorded(s: System, f: Flight) {
    match f
    case Selected(row, line) =>
      && row.hash in s.line && s.line[row.hash] == line && row.id in s.ids
      && forall r :: r in s.tables.tokens ==> (r.hash == row.hash <==> r.id == row.id)
    case Marked(_, line) => line < s.lines
    case _ => true
  }

  ghost predicate Recorded(s: System) {
    && RowsRecorded(s)
    && (forall f :: f in s.flights ==> FlightRecorded(s, s.flights[f]))
  }

  /** A session being revoked is gone, and its id will not be drawn again. */
  ghost predicate RevokedGone(s: System) {
    && (forall k :: k in s.tables.sessions ==> k in s.sessions && k != ACCESS_OWNER.session)
    && (forall h :: h in s.revoking ==>
         s.revoking[h] != "" && s.revoking[h] in s.sessions && s.revoking[h] !in s.tables.sessions)
  }

  ghost predicate Sound(s: System) {
    RowsDistinct(s.tables.tokens) && Recorded(s) && RevokedGone(s)
  }

  lemma MarkedRow(tokens: seq<Row>, id: string, now: int, q: Row) returns (r: Row)
    requires q in MarkUsed(tokens, id, now)
    ensures r in tokens && q == if r.id == id then r.(usedAt := Some(now)) else r
  {
    var j :| 0 <= j < |tokens| && MarkUsed(tokens, id, now)[j] == q;
    r := tokens[j];
  }

  lemma MarkedDistinct(tokens: seq<Row>, id: string, now: int)
    requires RowsDistinct(tokens)
    ensures RowsDistinct(MarkUsed(tokens, id, now))
  {
    var marked := MarkUsed(tokens, id, now);
    forall r, q | r in marked && q in marked && (r.hash == q.hash || r.id == q.id) ensures r == q {
      var j := MarkedRow(tokens, id, now, r);
      var k := MarkedRow(tokens, id, now, q);
    }
  }

  lemma MarkRecorded(s: System, flight: nat)
    requires Sound(s) && Enabled(s, Mark(flight))
    ensures Sound(After(s, Mark(flight)))
  {
    var t, f := After(s, Mark(flight)), s.flights[flight];
    assert FlightRecorded(s, f);
    MarkedDistinct(s.tables.tokens, f.row.id, s.now);
    hide RowsDistinct, MarkUsed;
    forall q | q in t.tables.tokens
      ensures q.hash in t.line && q.id in t.ids && (q.hash in t.spent ==> !Unused(q))
      ensures exists r :: r in s.tables.tokens && r.hash == q.hash && r.id == q.id
    {
      var r := MarkedRow(s.tables.tokens, f.row.id, s.now, q);
    }
    forall g | g in t.flights ensures FlightRecorded(t, t.flights[g]) {
      if g != flight {
        assert FlightRecorded(s, s.flights[g]);
      }
    }
  }

  lemma CreateRecorded(s: System, a: Step)
    requires Sound(s) && a.Create? && Enabled(s, a)
    ensures Sound(After(s, a))
  {
    var t, f := After(s, a), s.flights[a.flight];
    assert FlightRecorded(s, f);
    assert !HasId(s.tables.tokens, a.id) by {
      assert forall i :: 0 <= i < |s.tables.tokens| ==> s.tables.tokens[i] in s.tables.tokens;
    }
    var row := Row(a.id, f.owner.user, f.owner.session, a.hash, a.expiresAt, None);
    assert t.tables.tokens == s.tables.tokens + [row];
    assert RowsDistinct(t.tables.tokens);
    hide RowsDistinct, HasId;
    forall g | g in t.flights ensures FlightRecorded(t, t.flights[g]) {
      assert FlightRecorded(s, s.flights[g]);
    }
  }

  lemma SelectRecorded(s: System, a: Step)
    requires Sound(s) && a.Select? && Enabled(s, a)
    ensures Sound(After(s, a))
  {
    var i := FirstLive(s.tables.tokens, a.hash, s.now);
    if i < |s.tables.tokens| {
      var row := s.tables.tokens[i];
      assert row in s.tables.tokens && row.hash == a.hash;
      forall g | g in After(s, a).flights ensures FlightRecorded(After(s, a), After(s, a).flights[g]) {
        if g != a.flight {
          assert FlightRecorded(s, s.flights[g]);
        }
      }
    }
  }

  lemma SweepRecorded(s: System, a: Step)
    requires Sound(s) && a.Sweep? && Enabled(s, a)
    ensures Sound(After(s, a))
  {
    var t := After(s, a);
    assert forall r :: r in t.tables.tokens ==> r in s.tables.tokens;
    forall g | g in t.flights ensures FlightRecorded(t, t.flights[g]) {
      assert FlightRecorded(s, s.flights[g]);
    }
  }

  /** The other steps leave the tokens and what is recorded of them alone. */
  lemma OtherRecorded(s: System, a: Step)
    requires Sound(s) && Enabled(s, a) && !a.Mark? && !a.Create? && !a.Select? && !a.Sweep?
    ensures Sound(After(s, a))
  {
    var t := After(s, a);
    assert t.tables.tokens == s.tables.tokens && t.line == s.line && t.lines == s.lines && t.spent == s.spent && t.ids == s.ids;
    forall g | g in t.flights ensures FlightRecorded(t, t.flights[g]) {
      if g in s.flights {
        assert FlightRecorded(s, s.flights[g]);
      }
    }
  }

  /** Every step of every party keeps the history in order. */
  lemma StepSound(s: System, a: Step)
    requires Sound(s) && Enabled(s, a)
    ensures Sound(After(s, a))
  {
    hide Sound, After, Enabled;
    if a.Mark? {
      MarkRecorded(s, a.flight);
    } else if a.Create? {
      CreateRecorded(s, a);
    } else if a.Select? {
      SelectRecorded(s, a);
    } else if a.Sweep? {
      SweepRecorded(s, a);
    } else {
      OtherRecorded(s, a);
    }
  }

  lemma {:induction false} RunSound(s: System, run: seq<Step>)
    requires Sound(s) && Runs(s, run)
    ensures Sound(End(s, run))
    decreases |run|
  {
    if run != [] {
      StepSound(s, run[0]);
      hide Sound, After, Enabled;
      RunSound(After(s, run[0]), run[1..]);
    }
  }

  // ---------- How often a token validates ----------

  /** The owner a validation returns, at its last statement. */
  function Outcome(s: System, a: Step): Option<Owner>
    requires Enabled(s, a)
  {
    if a.Mark? then Some(OwnerOfRow(s.flights[a.flight].row)) else None
  }

  /** The request has selected the row of this token and not marked it yet. */
  predicate Holds(s: System, flight: nat, hash: string) {
    flight in s.flights && s.flights[flight].Selected? && s.flights[flight].row.hash == hash
  }

  predicate Validates(s: System, a: Step, hash: string) {
    a.Mark? && Holds(s, a.flight, hash)
  }

  /** How often the run validates the token. */
  function Validations(s: System, run: seq<Step>, hash: string): nat
    requires Runs(s, run)
    decreases |run|
  {
    if run == [] then 0
    else (if Validates(s, run[0], hash) then 1 else 0) + Validations(After(s, run[0]), run[1..], hash)
  }

  /** The token has been stored, and no row of it is unused: no select will find it again. */
  ghost predicate Used(s: System, hash: string) {
    hash in s.line && forall r :: r in s.tables.tokens && r.hash == hash ==> !Unused(r)
  }

  lemma ValidatedIsUsed(s: System, a: Step, hash: string)
    requires Sound(s) && Enabled(s, a) && Validates(s, a, hash)
    ensures Used(After(s, a), hash)
  {
    var f := s.flights[a.flight];
    assert FlightRecorded(s, f);
    hide RowsDistinct, MarkUsed;
    forall q | q in After(s, a).tables.tokens && q.hash == hash ensures !Unused(q) {
      var r := MarkedRow(s.tables.tokens, f.row.id, s.now, q);
    }
  }

  lemma MarkKeepsUsed(s: System, a: Step, hash: string)
    requires Enabled(s, a) && a.Mark? && Used(s, hash)
    ensures Used(After(s, a), hash)
  {
    hide MarkUsed;
    forall q | q in After(s, a).tables.tokens && q.hash == hash ensures !Unused(q) {
      var r := MarkedRow(s.tables.tokens, s.flights[a.flight].row.id, s.now, q);
    }
  }

  lemma UsedStays(s: System, a: Step, hash: string)
    requires Enabled(s, a) && Used(s, hash)
    ensures Used(After(s, a), hash)
    ensures forall f :: Holds(After(s, a), f, hash) ==> Holds(s, f, hash) && a != Mark(f) && a != Drop(f)
  {
    if a.Mark? {
      MarkKeepsUsed(s, a, hash);
    } else if a.Select? {
      var i := FirstLive(s.tables.tokens, a.hash, s.now);
      assert i < |s.tables.tokens| ==> s.tables.tokens[i] in s.tables.tokens;
    }
  }

  /** Of the request that holds a token, the next step that concerns it is its mark and not its end. */
  predicate GoesOnToMark(s: System, run: seq<Step>, flight: nat)
    requires Runs(s, run)
    decreases |run|
  {
    run != [] && (run[0] == Mark(flight) || (run[0] != Drop(flight) && GoesOnToMark(After(s, run[0]), run[1..], flight)))
  }

  lemma HoldsStays(s: System, a: Step, flight: nat, hash: string)
    requires Enabled(s, a) && Holds(s, flight, hash) && a != Mark(flight) && a != Drop(flight)
    ensures Holds(After(s, a), flight, hash)
  {
  }

  /** A request that holds the token and goes on to mark it validates it. */
  lemma {:induction false} OneMark(s: System, run: seq<Step>, hash: string, f: nat)
    requires Runs(s, run) && Holds(s, f, hash) && GoesOnToMark(s, run, f)
    ensures Validations(s, run, hash) >= 1
    decreases |run|
  {
    if run[0] != Mark(f) {
      HoldsStays(s, run[0], f, hash);
      hide After, Enabled, Holds, Validates;
      OneMark(After(s, run[0]), run[1..], hash, f);
    }
  }

  lemma {:induction false} TwoMarks(s: System, run: seq<Step>, hash: string, f: nat, g: nat)
    requires Runs(s, run) && f != g && Holds(s, f, hash) && Holds(s, g, hash)
    requires GoesOnToMark(s, run, f) && GoesOnToMark(s, run, g)
    ensures Validations(s, run, hash) >= 2
    decreases |run|
  {
    var t := After(s, run[0]);
    if run[0] == Mark(f) {
      HoldsStays(s, run[0], g, hash);
      OneMark(t, run[1..], hash, g);
    } else if run[0] == Mark(g) {
      HoldsStays(s, run[0], f, hash);
      OneMark(t, run[1..], hash, f);
    } else {
      HoldsStays(s, run[0], f, hash);
      HoldsStays(s, run[0], g, hash);
      hide After, Enabled, Holds, Validates;
      TwoMarks(t, run[1..], hash, f, g);
    }
  }

  /** A used token validates only through a request that held it before. */
  lemma {:induction false} HolderOfUsed(s: System, run: seq<Step>, hash: string) returns (f: nat)
    requires Runs(s, run) && Used(s, hash) && Validations(s, run, hash) >= 1
    ensures Holds(s, f, hash) && GoesOnToMark(s, run, f)
    decreases |run|
  {
    if Validates(s, run[0], hash) {
      f := run[0].flight;
    } else {
      UsedStays(s, run[0], hash);
      hide After, Enabled, Holds, Validates, Used;
      f := HolderOfUsed(After(s, run[0]), run[1..], hash);
    }
  }

  ghost predicate BothGoOn(s: System, run: seq<Step>, hash: string, f: nat, g: nat)
    requires Runs(s, run)
  {
    f != g && Holds(s, f, hash) && Holds(s, g, hash) && GoesOnToMark(s, run, f) && GoesOnToMark(s, run, g)
  }

  /** In some state two requests hold the token, and both go on to mark it. */
  ghost predicate Overlap(s: System, run: seq<Step>, hash: string)
    requires Runs(s, run)
    decreases |run|
  {
    (exists f, g :: BothGoOn(s, run, hash, f, g)) || (run != [] && Overlap(After(s, run[0]), run[1..], hash))
  }

  lemma {:induction false} TwiceOverlaps(s: System, run: seq<Step>, hash: string)
    requires Sound(s) && Runs(s, run) && Validations(s, run, hash) >= 2
    ensures Overlap(s, run, hash)
    decreases |run|
  {
    var a, t := run[0], After(s, run[0]);
    if Validates(s, a, hash) {
      ValidatedIsUsed(s, a, hash);
      var g := HolderOfUsed(t, run[1..], hash);
      BeforeMark(s, a, g, hash);
      assert BothGoOn(s, run, hash, a.flight, g);
    } else {
      StepSound(s, a);
      hide After, Enabled, Validates, Sound, BothGoOn;
      TwiceOverlaps(t, run[1..], hash);
    }
  }

  lemma BeforeMark(s: System, a: Step, g: nat, hash: string)
    requires Enabled(s, a) && a.Mark? && Holds(After(s, a), g, hash)
    ensures g != a.flight && Holds(s, g, hash)
  {
  }

  lemma {:induction false} OverlapIsTwice(s: System, run: seq<Step>, hash: string)
    requires Runs(s, run) && Overlap(s, run, hash)
    ensures Validations(s, run, hash) >= 2
    decreases |run|
  {
    if f, g :| BothGoOn(s, run, hash, f, g) {
      TwoMarks(s, run, hash, f, g);
    } else {
      hide After, Enabled, Validates, BothGoOn;
      OverlapIsTwice(After(s, run[0]), run[1..], hash);
    }
  }

  /**
   In every run a token validates at most once exactly if no two requests that both go on to mark it
   ever hold it together.
   */
  lemma ValidatesAtMostOnceIff(now: int, run: seq<Step>, hash: string)
    requires Runs(Start(now), run)
    ensures Validations(Start(now), run, hash) <= 1 <==> !Overlap(Start(now), run, hash)
  {
    StartSound(now);
    if Overlap(Start(now), run, hash) {
      OverlapIsTwice(Start(now), run, hash);
    }
    if Validations(Start(now), run, hash) >= 2 {
      TwiceOverlaps(Start(now), run, hash);
    }
  }

  lemma StartSound(now: int)
    ensures Sound(Start(now))
  {
  }

  ghost predicate BothHold(s: System, hash: string, f: nat, g: nat) {
    f != g && Holds(s, f, hash) && Holds(s, g, hash)
  }

  /** In some state of the run two requests hold the token. */
  ghost predicate PendingTogether(s: System, run: seq<Step>, hash: string)
    requires Runs(s, run)
    decreases |run|
  {
    (exists f, g :: BothHold(s, hash, f, g)) || (run != [] && PendingTogether(After(s, run[0]), run[1..], hash))
  }

  /** Every request that ever holds the token goes on to mark it: none fails in between or is still pending in the end. */
  ghost predicate AllGoOn(s: System, run: seq<Step>, hash: string)
    requires Runs(s, run)
    decreases |run|
  {
    && (forall f :: Holds(s, f, hash) ==> GoesOnToMark(s, run, f))
    && (run != [] ==> AllGoOn(After(s, run[0]), run[1..], hash))
  }

  lemma {:induction false} OverlapIsPending(s: System, run: seq<Step>, hash: string)
    requires Runs(s, run)
    ensures Overlap(s, run, hash) ==> PendingTogether(s, run, hash)
    ensures AllGoOn(s, run, hash) && PendingTogether(s, run, hash) ==> Overlap(s, run, hash)
    decreases |run|
  {
    if run != [] {
      OverlapIsPending(After(s, run[0]), run[1..], hash);
    }
    hide After, Enabled, Holds, GoesOnToMark;
    if f, g :| BothGoOn(s, run, hash, f, g) {
      assert BothHold(s, hash, f, g);
    }
    if AllGoOn(s, run, hash) {
      if f, g :| BothHold(s, hash, f, g) {
        assert BothGoOn(s, run, hash, f, g);
      }
    }
  }

  /**
   So a token validates at most once in every run in which no two of its selects are pending together,
   and where no request fails between its select and its mark, in no other.
   */
  lemma PendingTogetherDecides(now: int, run: seq<Step>, hash: string)
    requires Runs(Start(now), run)
    ensures !PendingTogether(Start(now), run, hash) ==> Validations(Start(now), run, hash) <= 1
    ensures AllGoOn(Start(now), run, hash) ==>
      (Validations(Start(now), run, hash) <= 1 <==> !PendingTogether(Start(now), run, hash))
  {
    ValidatesAtMostOnceIff(now, run, hash);
    OverlapIsPending(Start(now), run, hash);
  }

  // ---------- One token or refresh per lineage ----------

  function UnusedOf(s: System, line: nat): set<string> {
    set row | row in s.tables.tokens && Unused(row) && row.hash in s.line && s.line[row.hash] == line :: row.hash
  }

  function RotationsOf(s: System, line: nat): set<nat> {
    set f | f in s.flights && s.flights[f].Marked? && s.flights[f].line == line
  }

  /** What a lineage holds: its unused tokens, and its refreshes between mark and creation. */
  function Holdings(s: System, line: nat): nat {
    |UnusedOf(s, line)| + |RotationsOf(s, line)|
  }

  /** The step marks a token of the lineage that is no longer stored unused, while the lineage holds something. */
  predicate Crowds(s: System, a: Step, line: nat)
    requires Enabled(s, a)
  {
    && a.Mark? && s.flights[a.flight].line == line
    && s.flights[a.flight].row.hash !in UnusedOf(s, line) && Holdings(s, line) > 0
  }

  /** In every state of the run the lineage holds at most one token or refresh. */
  predicate AtMostOneHeld(s: System, run: seq<Step>, line: nat)
    requires Runs(s, run)
    decreases |run|
  {
    Holdings(s, line) <= 1 && (run == [] || AtMostOneHeld(After(s, run[0]), run[1..], line))
  }

  lemma {:induction false} HeldInTheEnd(s: System, run: seq<Step>, line: nat)
    requires Runs(s, run)
    ensures AtMostOneHeld(s, run, line) ==> Holdings(End(s, run), line) <= 1
    decreases |run|
  {
    if run != [] {
      HeldInTheEnd(After(s, run[0]), run[1..], line);
    }
  }

  predicate NoCrowding(s: System, run: seq<Step>, line: nat)
    requires Runs(s, run)
    decreases |run|
  {
    run == [] || (!Crowds(s, run[0], line) && NoCrowding(After(s, run[0]), run[1..], line))
  }

  lemma MarkUnused(s: System, flight: nat, line: nat)
    requires Sound(s) && Enabled(s, Mark(flight))
    ensures UnusedOf(After(s, Mark(flight)), line) == UnusedOf(s, line) - {s.flights[flight].row.hash}
  {
    var t, f := After(s, Mark(flight)), s.flights[flight];
    assert FlightRecorded(s, f);
    forall h | h in UnusedOf(t, line) ensures h in UnusedOf(s, line) && h != f.row.hash {
      var q :| q in t.tables.tokens && Unused(q) && q.hash == h;
      var r := MarkedRow(s.tables.tokens, f.row.id, s.now, q);
    }
    forall h | h in UnusedOf(s, line) && h != f.row.hash ensures h in UnusedOf(t, line) {
      var r :| r in s.tables.tokens && Unused(r) && r.hash == h;
      var j :| 0 <= j < |s.tables.tokens| && s.tables.tokens[j] == r;
      assert t.tables.tokens[j] == r;
    }
  }

  lemma MarkRotations(s: System, flight: nat, line: nat)
    requires Enabled(s, Mark(flight))
    ensures flight !in RotationsOf(s, line)
    ensures RotationsOf(After(s, Mark(flight)), line)
         == if s.flights[flight].line == line then RotationsOf(s, line) + {flight} else RotationsOf(s, line)
  {
  }

  /** A mark moves what the lineage holds from the token to the refresh, or adds to it. */
  lemma MarkHoldings(s: System, flight: nat, line: nat)
    requires Sound(s) && Enabled(s, Mark(flight))
    ensures
      var f := s.flights[flight];
      Holdings(After(s, Mark(flight)), line) == Holdings(s, line)
        + if f.line == line && f.row.hash !in UnusedOf(s, line) then 1 else 0
  {
    var h := s.flights[flight].row.hash;
    MarkUnused(s, flight, line);
    MarkRotations(s, flight, line);
    UnusedInLine(s, flight, line);
    hide UnusedOf, RotationsOf, After, Sound, Enabled;
    SizeWithout(UnusedOf(s, line), h);
    SizeWith(RotationsOf(s, line), flight);
  }

  lemma UnusedInLine(s: System, flight: nat, line: nat)
    requires Sound(s) && Enabled(s, Mark(flight))
    ensures s.flights[flight].row.hash in UnusedOf(s, line) ==> s.flights[flight].line == line
  {
    assert FlightRecorded(s, s.flights[flight]);
  }

  /** A creation turns a refresh of the lineage into its next token, or begins a lineage. */
  lemma CreateHoldings(s: System, a: Step, line: nat)
    requires Sound(s) && a.Create? && Enabled(s, a)
    ensures Holdings(After(s, a), line) <= Holdings(s, line) || Holdings(After(s, a), line) <= 1
  {
    CreateUnused(s, a, line);
    CreateRotations(s, a, line);
    NewLineEmpty(s);
    hide UnusedOf, RotationsOf, Sound, After;
    SizeWithout(RotationsOf(s, line), a.flight);
  }

  lemma CreateRotations(s: System, a: Step, line: nat)
    requires Sound(s) && a.Create? && Enabled(s, a)
    ensures RotationsOf(After(s, a), line) == RotationsOf(s, line) - {a.flight}
    ensures a.flight in RotationsOf(s, line) <==> s.flights[a.flight].Marked? && s.flights[a.flight].line == line
    ensures s.flights[a.flight].Marked? ==> s.flights[a.flight].line != s.lines
  {
    assert FlightRecorded(s, s.flights[a.flight]);
    hide HasId, RowsDistinct, RevokedGone;
  }

  lemma CreateUnused(s: System, a: Step, line: nat)
    requires Sound(s) && a.Create? && Enabled(s, a)
    ensures
      var f := s.flights[a.flight];
      UnusedOf(After(s, a), line) ==
        if line == (if f.Marked? then f.line else s.lines) then UnusedOf(s, line) + {a.hash} else UnusedOf(s, line)
  {
    var t, f := After(s, a), s.flights[a.flight];
    assert !HasId(s.tables.tokens, a.id) by {
      assert forall i :: 0 <= i < |s.tables.tokens| ==> s.tables.tokens[i] in s.tables.tokens;
    }
    var row := Row(a.id, f.owner.user, f.owner.session, a.hash, a.expiresAt, None);
    assert t.tables.tokens == s.tables.tokens + [row];
    hide HasId, RowsDistinct, RevokedGone;
    assert forall r :: r in t.tables.tokens <==> r in s.tables.tokens || r == row;
    assert row in t.tables.tokens && Unused(row);
    forall h | h in UnusedOf(s, line) ensures h in UnusedOf(t, line) {
      var r :| r in s.tables.tokens && Unused(r) && r.hash == h;
      assert r in t.tables.tokens;
    }
  }

  lemma NewLineEmpty(s: System)
    requires Sound(s)
    ensures UnusedOf(s, s.lines) == {} && RotationsOf(s, s.lines) == {}
  {
    forall f | f in s.flights ensures FlightRecorded(s, s.flights[f]) {
    }
  }

  lemma SubsetHoldings(s: System, t: System, line: nat)
    requires UnusedOf(t, line) <= UnusedOf(s, line) && RotationsOf(t, line) <= RotationsOf(s, line)
    ensures Holdings(t, line) <= Holdings(s, line)
  {
    hide UnusedOf, RotationsOf;
    SubsetSize(UnusedOf(t, line), UnusedOf(s, line));
    SubsetSize(RotationsOf(t, line), RotationsOf(s, line));
  }

  lemma OtherHoldings(s: System, a: Step, line: nat)
    requires Enabled(s, a) && !a.Mark? && !a.Create?
    ensures Holdings(After(s, a), line) <= Holdings(s, line)
  {
    var t := After(s, a);
    assert t.line == s.line && forall r :: r in t.tables.tokens ==> r in s.tables.tokens;
    assert RotationsOf(t, line) <= RotationsOf(s, line);
    assert UnusedOf(t, line) <= UnusedOf(s, line);
    hide After, Enabled, UnusedOf, RotationsOf;
    SubsetHoldings(s, t, line);
  }

  /** A step makes the lineage hold more than one thing exactly if it crowds it. */
  lemma HoldingsStep(s: System, a: Step, line: nat)
    requires Sound(s) && Enabled(s, a) && Holdings(s, line) <= 1
    ensures Holdings(After(s, a), line) <= 1 <==> !Crowds(s, a, line)
  {
    hide Sound, After, Enabled, Holdings, UnusedOf;
    if a.Mark? {
      MarkHoldings(s, a.flight, line);
    } else if a.Create? {
      CreateHoldings(s, a, line);
    } else {
      OtherHoldings(s, a, line);
    }
  }

  lemma {:induction false} HeldWhileUncrowded(s: System, run: seq<Step>, line: nat)
    requires Sound(s) && Runs(s, run) && Holdings(s, line) <= 1
    ensures AtMostOneHeld(s, run, line) <==> NoCrowding(s, run, line)
    decreases |run|
  {
    if run != [] {
      StepSound(s, run[0]);
      HoldingsStep(s, run[0], line);
      hide Sound, After, Enabled, Holdings, Crowds;
      var t := After(s, run[0]);
      if Crowds(s, run[0], line) {
        assert AtMostOneHeld(t, run[1..], line) ==> Holdings(t, line) <= 1;
      } else {
        HeldWhileUncrowded(t, run[1..], line);
      }
    }
  }

  /**
   In every run, and for every lineage: in all states its unused tokens and its refreshes between
   validation and creation are at most one, exactly if no request marks a token of it that is no
   longer stored unused while it holds another or a refresh.
   */
  lemma OneHeldIff(now: int, run: seq<Step>, line: nat)
    requires Runs(Start(now), run)
    ensures AtMostOneHeld(Start(now), run, line) <==> NoCrowding(Start(now), run, line)
  {
    StartSound(now);
    NewLineEmpty(Start(now).(lines := line));
    assert UnusedOf(Start(now), line) == {} && RotationsOf(Start(now), line) == {};
    HeldWhileUncrowded(Start(now), run, line);
  }

  // Unless a revocation has deleted it, a token no longer stored unused is one already validated.

  ghost predicate Revalidates(s: System, a: Step, line: nat)
    requires Enabled(s, a)
  {
    a.Mark? && s.flights[a.flight].line == line && s.flights[a.flight].row.hash in s.spent && Holdings(s, line) > 0
  }

  /** Every token not validated is stored, and unused. */
  ghost predicate AllStored(s: System) {
    forall h :: h in s.line && h !in s.spent ==> exists r :: r in s.tables.tokens && r.hash == h && Unused(r)
  }

  lemma StoredStep(s: System, a: Step)
    requires Sound(s) && AllStored(s) && Enabled(s, a) && !a.Sweep?
    ensures AllStored(After(s, a))
  {
    var t := After(s, a);
    forall h | h in t.line && h !in t.spent ensures exists r :: r in t.tables.tokens && r.hash == h && Unused(r) {
      if a.Create? && h == a.hash {
        assert !HasId(s.tables.tokens, a.id) by {
          assert forall i :: 0 <= i < |s.tables.tokens| ==> s.tables.tokens[i] in s.tables.tokens;
        }
        assert t.tables.tokens[|t.tables.tokens| - 1].hash == h;
      } else {
        var r :| r in s.tables.tokens && r.hash == h && Unused(r);
        StoredKept(s, a, r);
      }
    }
  }

  lemma StoredKept(s: System, a: Step, r: Row)
    requires Sound(s) && Enabled(s, a) && !a.Sweep? && r in s.tables.tokens && !Validates(s, a, r.hash)
    ensures r in After(s, a).tables.tokens
  {
    var j :| 0 <= j < |s.tables.tokens| && s.tables.tokens[j] == r;
    if a.Mark? {
      assert FlightRecorded(s, s.flights[a.flight]);
      assert After(s, a).tables.tokens[j] == r;
    }
  }

  predicate NoSweep(run: seq<Step>) {
    forall i :: 0 <= i < |run| ==> !run[i].Sweep?
  }

  /** No request marks a token of the lineage that was validated before while the lineage holds something. */
  ghost predicate NoRevalidation(s: System, run: seq<Step>, line: nat)
    requires Runs(s, run)
    decreases |run|
  {
    run == [] || (!Revalidates(s, run[0], line) && NoRevalidation(After(s, run[0]), run[1..], line))
  }

  lemma CrowdsValidated(s: System, a: Step, line: nat)
    requires Sound(s) && AllStored(s) && Enabled(s, a)
    ensures Crowds(s, a, line) <==> Revalidates(s, a, line)
  {
    if a.Mark? && s.flights[a.flight].line == line {
      var h := s.flights[a.flight].row.hash;
      assert FlightRecorded(s, s.flights[a.flight]);
      assert h in UnusedOf(s, line) <==> h !in s.spent;
    }
  }

  lemma {:induction false} SameCrowding(s: System, run: seq<Step>, line: nat)
    requires Sound(s) && AllStored(s) && Runs(s, run) && NoSweep(run)
    ensures NoCrowding(s, run, line) <==> NoRevalidation(s, run, line)
    decreases |run|
  {
    if run != [] {
      StepSound(s, run[0]);
      StoredStep(s, run[0]);
      CrowdsValidated(s, run[0], line);
      hide Sound, AllStored, After, Enabled, Crowds, Revalidates;
      assert forall i :: 0 <= i < |run[1..]| ==> run[1..][i] == run[i + 1];
      SameCrowding(After(s, run[0]), run[1..], line);
    }
  }

  /** So without revocations it is exactly the marks of tokens already validated that must not happen. */
  lemma OneHeldIffNoRevalidation(now: int, run: seq<Step>, line: nat)
    requires Runs(Start(now), run) && NoSweep(run)
    ensures AtMostOneHeld(Start(now), run, line) <==> NoRevalidation(Start(now), run, line)
  {
    StartSound(now);
    OneHeldIff(now, run, line);
    SameCrowding(Start(now), run, line);
  }

  // In particular it holds of every lineage none of whose tokens is held by two requests that mark it.

  /** Every mark of the lineage in the run is the first of its token. */
  predicate FirstMarks(s: System, run: seq<Step>, line: nat)
    requires Runs(s, run)
    decreases |run|
  {
    run == [] || ((run[0].Mark? && s.flights[run[0].flight].line == line ==> s.flights[run[0].flight].row.hash !in s.spent)
                  && FirstMarks(After(s, run[0]), run[1..], line))
  }

  function Left(s: System, hash: string): nat {
    if hash in s.spent then 0 else 1
  }

  lemma LeftStep(s: System, a: Step, hash: string)
    requires Enabled(s, a)
    ensures Left(After(s, a), hash) == if Validates(s, a, hash) then 0 else Left(s, hash)
  {
  }

  predicate InLine(s: System, hash: string, line: nat) {
    hash in s.line && s.line[hash] == line
  }

  lemma {:induction false} LineKept(s: System, run: seq<Step>, hash: string)
    requires Runs(s, run) && hash in s.line
    ensures InLine(End(s, run), hash, s.line[hash])
    decreases |run|
  {
    if run != [] {
      LineKept(After(s, run[0]), run[1..], hash);
    }
  }

  lemma {:induction false} OnceIsFirst(s: System, run: seq<Step>, line: nat)
    requires Sound(s) && Runs(s, run)
    requires forall hash :: InLine(End(s, run), hash, line) ==> Validations(s, run, hash) <= Left(s, hash)
    ensures FirstMarks(s, run, line)
    decreases |run|
  {
    if run != [] {
      var a, t := run[0], After(s, run[0]);
      forall hash | InLine(End(s, run), hash, line) ensures Validations(t, run[1..], hash) <= Left(t, hash) {
        LeftStep(s, a, hash);
        assert Validations(s, run, hash) <= Left(s, hash);
      }
      if a.Mark? && s.flights[a.flight].line == line {
        FirstOfLine(s, run, line);
      }
      StepSound(s, a);
      hide Sound, After, Enabled, Validates, InLine, Left;
      OnceIsFirst(t, run[1..], line);
    }
  }

  lemma FirstOfLine(s: System, run: seq<Step>, line: nat)
    requires Sound(s) && Runs(s, run) && run != [] && run[0].Mark? && s.flights[run[0].flight].line == line
    requires forall hash :: InLine(End(s, run), hash, line) ==> Validations(s, run, hash) <= Left(s, hash)
    ensures s.flights[run[0].flight].row.hash !in s.spent
  {
    var hash := s.flights[run[0].flight].row.hash;
    assert FlightRecorded(s, s.flights[run[0].flight]);
    LineKept(s, run, hash);
    assert Validates(s, run[0], hash);
    assert Validations(s, run, hash) >= 1;
  }

  /** What the lineage can still spend: tokens not yet validated, stored or deleted, and refreshes. */
  ghost predicate OneHolder(s: System, line: nat) {
    && (forall h, k :: h in s.line && k in s.line && h !in s.spent && k !in s.spent && s.line[h] == s.line[k] == line ==> h == k)
    && (forall f, g :: Rotating(s, f) && Rotating(s, g) && s.flights[f].line == s.flights[g].line == line ==> f == g)
    && (forall h, f :: h in s.line && h !in s.spent && s.line[h] == line && Rotating(s, f) ==> s.flights[f].line != line)
  }

  predicate Rotating(s: System, f: nat) {
    f in s.flights && s.flights[f].Marked?
  }

  lemma HolderStep(s: System, a: Step, line: nat)
    requires Sound(s) && OneHolder(s, line) && Enabled(s, a)
    requires a.Mark? && s.flights[a.flight].line == line ==> s.flights[a.flight].row.hash !in s.spent
    ensures OneHolder(After(s, a), line)
  {
    hide RowsDistinct, RevokedGone;
    if a.Mark? {
      assert FlightRecorded(s, s.flights[a.flight]);
    } else if a.Create? {
      assert FlightRecorded(s, s.flights[a.flight]);
      CreateHolder(s, a, line);
    }
  }

  lemma CreateHolder(s: System, a: Step, line: nat)
    requires Sound(s) && OneHolder(s, line) && a.Create? && Enabled(s, a)
    ensures OneHolder(After(s, a), line)
  {
    hide RowsDistinct, RevokedGone, HasId;
    forall f | f in s.flights ensures FlightRecorded(s, s.flights[f]) {
    }
  }

  lemma HolderUncrowded(s: System, a: Step, line: nat)
    requires Sound(s) && OneHolder(s, line) && Enabled(s, a)
    requires a.Mark? && s.flights[a.flight].line == line ==> s.flights[a.flight].row.hash !in s.spent
    ensures !Crowds(s, a, line)
  {
    if a.Mark? && s.flights[a.flight].line == line {
      var h := s.flights[a.flight].row.hash;
      assert FlightRecorded(s, s.flights[a.flight]);
      assert InLine(s, h, line);
      forall k | k in UnusedOf(s, line) ensures k == h {
        assert k in s.line && k !in s.spent;
      }
      forall f ensures f !in RotationsOf(s, line) {
        assert Rotating(s, f) ==> s.flights[f].line != line;
      }
      if h !in UnusedOf(s, line) {
        assert UnusedOf(s, line) == {};
      }
    }
  }

  lemma {:induction false} HoldersUncrowded(s: System, run: seq<Step>, line: nat)
    requires Sound(s) && OneHolder(s, line) && Runs(s, run) && FirstMarks(s, run, line)
    ensures NoCrowding(s, run, line)
    decreases |run|
  {
    if run != [] {
      StepSound(s, run[0]);
      HolderStep(s, run[0], line);
      HolderUncrowded(s, run[0], line);
      hide Sound, OneHolder, After, Enabled, Crowds;
      HoldersUncrowded(After(s, run[0]), run[1..], line);
    }
  }

  /** A lineage none of whose tokens is validated twice holds at most one token or refresh in every state of the run. */
  lemma OneTokenPerLineage(now: int, run: seq<Step>, line: nat)
    requires Runs(Start(now), run)
    requires forall hash :: InLine(End(Start(now), run), hash, line) ==> !Overlap(Start(now), run, hash)
    ensures AtMostOneHeld(Start(now), run, line)
  {
    var s := Start(now);
    StartSound(now);
    forall hash | InLine(End(s, run), hash, line) ensures Validations(s, run, hash) <= Left(s, hash) {
      ValidatesAtMostOnceIff(now, run, hash);
    }
    OnceIsFirst(s, run, line);
    HoldersUncrowded(s, run, line);
    OneHeldIff(now, run, line);
  }
}

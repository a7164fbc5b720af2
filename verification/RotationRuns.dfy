/**
 Runs of the rotation protocol: what a revocation ends and what outlives it, a run in which one token
 is validated twice, and when a first token is issued at all.
 */
module RotationRuns {
  import opened TokenTables
  import opened TokenRotation
  import opened Options

  // ---------- Revocation ----------

  /** Nothing of the session is stored or in flight, and its id will not be drawn again. */
  ghost predicate Quiet(s: System, session: string) {
    && session in s.sessions && session != ACCESS_OWNER.session && session !in s.tables.sessions
    && (forall r :: r in s.tables.tokens ==> r.session != session)
    && (forall f :: f in s.flights ==> SessionOf(s.flights[f]) != session)
  }

  /** Some step of the run validates a token of the session. */
  predicate ValidatesFor(s: System, run: seq<Step>, session: string)
    requires Runs(s, run)
    decreases |run|
  {
    run != [] && ((Outcome(s, run[0]) != None && Outcome(s, run[0]).value.session == session)
                  || ValidatesFor(After(s, run[0]), run[1..], session))
  }

  lemma QuietMark(s: System, a: Step, session: string)
    requires Quiet(s, session) && Enabled(s, a) && a.Mark?
    ensures Quiet(After(s, a), session)
  {
    hide MarkUsed;
    forall q | q in After(s, a).tables.tokens ensures q.session != session {
      var r := MarkedRow(s.tables.tokens, s.flights[a.flight].row.id, s.now, q);
    }
  }

  lemma QuietSelect(s: System, a: Step, session: string)
    requires Quiet(s, session) && Enabled(s, a) && a.Select?
    ensures Quiet(After(s, a), session)
  {
    var i := FirstLive(s.tables.tokens, a.hash, s.now);
    assert i < |s.tables.tokens| ==> s.tables.tokens[i] in s.tables.tokens;
  }

  lemma QuietStep(s: System, a: Step, session: string)
    requires Quiet(s, session) && Enabled(s, a)
    ensures Quiet(After(s, a), session)
    ensures Outcome(s, a) == None || Outcome(s, a).value.session != session
  {
    if a.Mark? {
      QuietMark(s, a, session);
    } else if a.Select? {
      QuietSelect(s, a, session);
    } else {
      hide FirstLive, MarkUsed;
    }
  }

  lemma {:induction false} QuietStays(s: System, run: seq<Step>, session: string)
    requires Quiet(s, session) && Runs(s, run)
    ensures Quiet(End(s, run), session) && !ValidatesFor(s, run, session)
    decreases |run|
  {
    if run != [] {
      QuietStep(s, run[0], session);
      hide Quiet, After, Enabled, Outcome;
      QuietStays(After(s, run[0]), run[1..], session);
    }
  }

  // ---------- What outlives it ----------

  lemma FirstStep(s: System, a: Step, rest: seq<Step>)
    requires Enabled(s, a)
    ensures Runs(s, [a] + rest) <==> Runs(After(s, a), rest)
    ensures Runs(After(s, a), rest) ==> End(s, [a] + rest) == End(After(s, a), rest)
    ensures Runs(After(s, a), rest) ==> forall session ::
      ValidatesFor(s, [a] + rest, session) <==>
        (Outcome(s, a) != None && Outcome(s, a).value.session == session) || ValidatesFor(After(s, a), rest, session)
    ensures Runs(After(s, a), rest) ==> forall hash ::
      Validations(s, [a] + rest, hash) == (if Validates(s, a, hash) then 1 else 0) + Validations(After(s, a), rest, hash)
  {
    assert ([a] + rest)[1..] == rest;
  }

  lemma NoStep(s: System)
    ensures Runs(s, []) && End(s, []) == s && forall hash :: Validations(s, [], hash) == 0
  {
  }

  /** Some step of the run validates a token of the session. */
  ghost predicate Returns(s: System, run: seq<Step>, session: string) {
    Runs(s, run) && ValidatesFor(s, run, session)
  }

  /** The run ends with a token of the session validated, and the session still absent. */
  ghost predicate Revives(s: System, run: seq<Step>, session: string) {
    Returns(s, run, session) && session !in End(s, run).tables.sessions
  }

  lemma MarkRevives(s: System, flight: nat, session: string)
    requires flight in s.flights && s.flights[flight].Selected? && s.flights[flight].row.session == session
    requires session !in s.tables.sessions
    ensures Revives(s, [Mark(flight)], session)
  {
    assert [Mark(flight)] == [Mark(flight)] + [];
    NoStep(After(s, Mark(flight)));
    FirstStep(s, Mark(flight), []);
  }

  /** A request about to create a token stores one that can be selected. */
  lemma CreatedIsSelected(s: System, flight: nat, id: string, hash: string)
    requires Sound(s) && flight in s.flights && (s.flights[flight].Marked? || s.flights[flight].Cleared?)
    requires hash !in s.line && id !in s.ids
    ensures
      var t := After(s, Create(flight, id, hash, s.now + 1));
      var u := After(t, Select(hash, flight));
      && Enabled(t, Select(hash, flight)) && u.tables == t.tables && t.tables.sessions == s.tables.sessions
      && flight in u.flights && u.flights[flight].Selected? && u.flights[flight].row.session == s.flights[flight].owner.session
  {
    var t := After(s, Create(flight, id, hash, s.now + 1));
    var n := |s.tables.tokens|;
    assert forall i :: 0 <= i < n ==> s.tables.tokens[i] in s.tables.tokens;
    assert !HasId(s.tables.tokens, id);
    assert |t.tables.tokens| == n + 1 && Live(t.tables.tokens[n], hash, t.now);
    assert forall i :: 0 <= i < n ==> t.tables.tokens[i] == s.tables.tokens[i] && t.tables.tokens[i].hash != hash;
    var first := FirstLive(t.tables.tokens, hash, t.now);
    assert first == n;
  }

  lemma CreateRevives(s: System, flight: nat, id: string, hash: string, session: string)
    requires Sound(s) && flight in s.flights && (s.flights[flight].Marked? || s.flights[flight].Cleared?)
    requires s.flights[flight].owner.session == session && session !in s.tables.sessions
    requires hash !in s.line && id !in s.ids
    ensures Revives(s, [Create(flight, id, hash, s.now + 1), Select(hash, flight), Mark(flight)], session)
  {
    var create, select := Create(flight, id, hash, s.now + 1), Select(hash, flight);
    var t := After(s, create);
    CreatedIsSelected(s, flight, id, hash);
    var u := After(t, select);
    MarkRevives(u, flight, session);
    hide After, Enabled, Runs, End, ValidatesFor;
    FirstStep(t, select, [Mark(flight)]);
    FirstStep(s, create, [select] + [Mark(flight)]);
    assert [create] + ([select] + [Mark(flight)]) == [create, select, Mark(flight)];
  }

  lemma MintRevives(s: System, flight: nat, id: string, hash: string, session: string)
    requires Sound(s) && flight in s.flights && s.flights[flight].Minting?
    requires s.flights[flight].owner.session == session && session !in s.tables.sessions
    requires hash !in s.line && id !in s.ids
    ensures Revives(s, [AskRevoked(flight, None), Create(flight, id, hash, s.now + 1), Select(hash, flight), Mark(flight)], session)
  {
    var ask := AskRevoked(flight, None);
    var rest := [Create(flight, id, hash, s.now + 1), Select(hash, flight), Mark(flight)];
    var t := After(s, ask);
    StepSound(s, ask);
    CreateRevives(t, flight, id, hash, session);
    hide After, Enabled, Runs, End, ValidatesFor;
    FirstStep(s, ask, rest);
    assert [ask] + rest == [ask, Create(flight, id, hash, s.now + 1), Select(hash, flight), Mark(flight)];
  }

  lemma AccessRevives(s: System, flight: nat, id: string, hash: string)
    requires Sound(s) && flight !in s.flights && hash !in s.line && id !in s.ids
    ensures
      Revives(s, [IdentifyAccess(flight), AskRevoked(flight, None), Create(flight, id, hash, s.now + 1), Select(hash, flight),
                  Mark(flight)], ACCESS_OWNER.session)
  {
    var identify := IdentifyAccess(flight);
    var rest := [AskRevoked(flight, None), Create(flight, id, hash, s.now + 1), Select(hash, flight), Mark(flight)];
    var t := After(s, identify);
    StepSound(s, identify);
    MintRevives(t, flight, id, hash, ACCESS_OWNER.session);
    hide After, Enabled, Runs, End, ValidatesFor;
    FirstStep(s, identify, rest);
    assert [identify] + rest == [identify, AskRevoked(flight, None), Create(flight, id, hash, s.now + 1), Select(hash, flight),
                                 Mark(flight)];
  }

  lemma {:induction false} LongerThanAll(s: set<string>) returns (x: string)
    ensures x !in s && forall y :: y in s ==> |y| < |x|
  {
    if s == {} {
      x := "";
    } else {
      var y :| y in s;
      x := LongerThanAll(s - {y});
      x := if |x| > |y| then x else y + "x";
      assert s == s - {y} + {y};
    }
  }

  lemma {:induction false} GreaterThanAll(s: set<nat>) returns (n: nat)
    ensures forall m :: m in s ==> m < n
  {
    if s == {} {
      n := 0;
    } else {
      var m :| m in s;
      n := GreaterThanAll(s - {m});
      n := if n > m then n else m + 1;
      assert s == s - {m} + {m};
    }
  }

  /** A request of the session, wherever it stands, can go on until one of the session's tokens is validated. */
  lemma FlightRevives(s: System, flight: nat, session: string) returns (run: seq<Step>)
    requires Sound(s) && flight in s.flights && SessionOf(s.flights[flight]) == session && session !in s.tables.sessions
    ensures Revives(s, run, session)
  {
    var hash := LongerThanAll(s.line.Keys);
    var id := LongerThanAll(s.ids);
    hide Revives;
    if s.flights[flight].Selected? {
      MarkRevives(s, flight, session);
      run := [Mark(flight)];
    } else if s.flights[flight].Minting? {
      MintRevives(s, flight, id, hash, session);
      run := [AskRevoked(flight, None), Create(flight, id, hash, s.now + 1), Select(hash, flight), Mark(flight)];
    } else {
      CreateRevives(s, flight, id, hash, session);
      run := [Create(flight, id, hash, s.now + 1), Select(hash, flight), Mark(flight)];
    }
  }

  lemma SweepQuiets(s: System, handler: nat)
    requires Sound(s) && handler in s.revoking && s.revoking[handler] != ACCESS_OWNER.session
    requires forall f :: f in s.flights ==> SessionOf(s.flights[f]) != s.revoking[handler]
    ensures Quiet(After(s, Sweep(handler)), s.revoking[handler])
  {
  }

  /**
   Once a revocation has deleted a session and then its tokens, a token of the session can be validated
   again exactly if some request of it was in flight, before or after its validation or on the way to a
   first token, or if it is the session that access assertions share, which is never stored. The
   session itself stays revoked all the while.
   */
  lemma RevivedIff(s: System, handler: nat)
    requires Sound(s) && handler in s.revoking
    ensures
      var t, session := After(s, Sweep(handler)), s.revoking[handler];
      && session !in t.tables.sessions
      && ((exists run :: Returns(t, run, session)) <==>
           session == ACCESS_OWNER.session || exists f :: f in s.flights && SessionOf(s.flights[f]) == session)
      && ((exists run :: Revives(t, run, session)) <==>
           session == ACCESS_OWNER.session || exists f :: f in s.flights && SessionOf(s.flights[f]) == session)
  {
    var t, session := After(s, Sweep(handler)), s.revoking[handler];
    StepSound(s, Sweep(handler));
    if session == ACCESS_OWNER.session {
      var hash := LongerThanAll(t.line.Keys);
      var id := LongerThanAll(t.ids);
      var flight := GreaterThanAll(t.flights.Keys);
      AccessRevives(t, flight, id, hash);
      var run := [IdentifyAccess(flight), AskRevoked(flight, None), Create(flight, id, hash, t.now + 1), Select(hash, flight),
                  Mark(flight)];
      assert Revives(t, run, session) && Returns(t, run, session);
    } else if f :| f in s.flights && SessionOf(s.flights[f]) == session {
      var run := FlightRevives(t, f, session);
      assert Revives(t, run, session) && Returns(t, run, session);
    } else {
      SweepQuiets(s, handler);
      forall run | Runs(t, run) ensures !ValidatesFor(t, run, session) {
        QuietStays(t, run, session);
      }
    }
  }

  // ---------- First tokens ----------

  /** Every query for revocation in the run is answered. */
  predicate AllAnswered(run: seq<Step>) {
    forall i :: 0 <= i < |run| && run[i].AskRevoked? ==> run[i].reply != None
  }

  ghost predicate NothingIssued(s: System) {
    s.tables.tokens == [] && forall f :: f in s.flights ==> s.flights[f].Minting?
  }

  lemma {:induction false} NothingIssuedStays(s: System, run: seq<Step>)
    requires NothingIssued(s) && Runs(s, run) && AllAnswered(run)
    ensures NothingIssued(End(s, run))
    decreases |run|
  {
    if run != [] {
      NothingIssuedStep(s, run[0]);
      assert AllAnswered(run[1..]);
      hide NothingIssued, After, Enabled;
      NothingIssuedStays(After(s, run[0]), run[1..]);
    }
  }

  lemma NothingIssuedStep(s: System, a: Step)
    requires NothingIssued(s) && Enabled(s, a) && (a.AskRevoked? ==> a.reply != None)
    ensures NothingIssued(After(s, a))
  {
  }

  /**
   The mint handler refuses whenever its query for revocation is answered, whatever the answer says.
   So as long as every query is answered no refresh token is ever stored.
   */
  lemma NothingIssuedWhenAnswered(now: int, run: seq<Step>)
    requires Runs(Start(now), run) && AllAnswered(run)
    ensures End(Start(now), run).tables.tokens == []
  {
    NothingIssuedStays(Start(now), run);
  }

  // ---------- One token validated twice ----------

  /** A login, a first token for it, and two requests that both select it before either marks it. */
  const FIRST_TOKEN: seq<Step> :=
    [Login("s", "u", 100), Identify("s", 0), AskRevoked(0, None), Create(0, "1", "a", 100)]

  const BOTH_MARK: seq<Step> := [Select("a", 1), Select("a", 2), Mark(1), Mark(2)]

  const BOTH_CREATE: seq<Step> := [Create(1, "2", "b", 100), Create(2, "3", "c", 100)]

  const OWNER := Owner("u", "s")

  function TokenRow(id: string, hash: string, usedAt: Option<int>): Row {
    Row(id, "u", "s", hash, 100, usedAt)
  }

  /** The state with these rows and requests, after the login and with these tokens in the only lineage. */
  function Scene(tokens: seq<Row>, flights: map<nat, Flight>, hashes: map<string, nat>, lines: nat, spent: set<string>,
                 ids: set<string>): System
  {
    System(Tables(map["s" := SessionRow("u", 100)], tokens, map[]), 0, flights, map[], hashes, lines, spent, {"s"}, ids)
  }

  lemma LoginScene()
    ensures Enabled(Start(0), Login("s", "u", 100))
    ensures After(Start(0), Login("s", "u", 100)) == Scene([], map[], map[], 0, {}, {})
  {
    assert |"s"| == 1 && |ACCESS_OWNER.session| == 14;
  }

  lemma MintScene()
    ensures
      var s1 := Scene([], map[], map[], 0, {}, {});
      var s2 := Scene([], map[0 := Minting(OWNER)], map[], 0, {}, {});
      var s3 := Scene([], map[0 := Cleared(OWNER)], map[], 0, {}, {});
      && Enabled(s1, Identify("s", 0)) && After(s1, Identify("s", 0)) == s2
      && Enabled(s2, AskRevoked(0, None)) && After(s2, AskRevoked(0, None)) == s3
  {
  }

  lemma CreateScene(flight: nat, id: string, hash: string, tokens: seq<Row>, flights: map<nat, Flight>, hashes: map<string, nat>,
                    lines: nat, spent: set<string>, ids: set<string>)
    requires flight in flights && hash !in hashes && id !in ids && !HasId(tokens, id)
    requires flights[flight] == Marked(OWNER, 0) || (flights[flight] == Cleared(OWNER) && lines == 0)
    ensures
      var s := Scene(tokens, flights, hashes, lines, spent, ids);
      && Enabled(s, Create(flight, id, hash, 100))
      && After(s, Create(flight, id, hash, 100)) ==
         Scene(tokens + [TokenRow(id, hash, None)], flights - {flight}, hashes[hash := 0],
               if flights[flight].Marked? then lines else 1, spent, ids + {id})
  {
  }

  lemma SelectScene(flight: nat, flights: map<nat, Flight>)
    requires flight !in flights
    ensures
      var row := TokenRow("1", "a", None);
      var s := Scene([row], flights, map["a" := 0], 1, {}, {"1"});
      && Enabled(s, Select("a", flight))
      && After(s, Select("a", flight)) == Scene([row], flights[flight := Selected(row, 0)], map["a" := 0], 1, {}, {"1"})
  {
    assert Live(TokenRow("1", "a", None), "a", 0);
  }

  lemma MarkScene(flight: nat, row: Row, flights: map<nat, Flight>, spent: set<string>)
    requires flight in flights && flights[flight] == Selected(TokenRow("1", "a", None), 0) && row.id == "1"
    ensures
      var s := Scene([row], flights, map["a" := 0], 1, spent, {"1"});
      && Enabled(s, Mark(flight)) && Validates(s, Mark(flight), "a")
      && After(s, Mark(flight)) ==
         Scene([row.(usedAt := Some(0))], flights[flight := Marked(OWNER, 0)], map["a" := 0], 1, spent + {"a"}, {"1"})
  {
  }

  lemma FirstTokenRun()
    ensures Runs(Start(0), FIRST_TOKEN) && Validations(Start(0), FIRST_TOKEN, "a") == 0
    ensures End(Start(0), FIRST_TOKEN) == Scene([TokenRow("1", "a", None)], map[], map["a" := 0], 1, {}, {"1"})
  {
    var s1 := Scene([], map[], map[], 0, {}, {});
    var s2 := Scene([], map[0 := Minting(OWNER)], map[], 0, {}, {});
    var s3 := Scene([], map[0 := Cleared(OWNER)], map[], 0, {}, {});
    var s4 := Scene([TokenRow("1", "a", None)], map[], map["a" := 0], 1, {}, {"1"});
    LoginScene();
    MintScene();
    CreateScene(0, "1", "a", [], map[0 := Cleared(OWNER)], map[], 0, {}, {});
    assert [] + [TokenRow("1", "a", None)] == [TokenRow("1", "a", None)];
    assert map[0 := Cleared(OWNER)] - {0} == map[];
    hide Scene, After, Enabled, Runs, End, Validations, Start;
    NoStep(s4);
    FirstStep(s3, Create(0, "1", "a", 100), []);
    FirstStep(s2, AskRevoked(0, None), [Create(0, "1", "a", 100)] + []);
    FirstStep(s1, Identify("s", 0), [AskRevoked(0, None)] + ([Create(0, "1", "a", 100)] + []));
    FirstStep(Start(0), Login("s", "u", 100), [Identify("s", 0)] + ([AskRevoked(0, None)] + ([Create(0, "1", "a", 100)] + [])));
    assert [Login("s", "u", 100)] + ([Identify("s", 0)] + ([AskRevoked(0, None)] + ([Create(0, "1", "a", 100)] + []))) == FIRST_TOKEN;
  }

  lemma BothMarkRun()
    ensures
      var row := TokenRow("1", "a", None);
      var s := Scene([row], map[], map["a" := 0], 1, {}, {"1"});
      && Runs(s, BOTH_MARK) && Validations(s, BOTH_MARK, "a") == 2
      && End(s, BOTH_MARK) == Scene([row.(usedAt := Some(0))], map[1 := Marked(OWNER, 0), 2 := Marked(OWNER, 0)], map["a" := 0], 1,
                                    {"a"}, {"1"})
  {
    var row, used := TokenRow("1", "a", None), TokenRow("1", "a", Some(0));
    var held := Selected(row, 0);
    hide Scene, After, Enabled, Runs, End, Validations;
    SelectScene(1, map[]);
    SelectScene(2, map[1 := held]);
    MarkScene(1, row, map[1 := held, 2 := held], {});
    MarkScene(2, used, map[1 := Marked(OWNER, 0), 2 := held], {"a"});
    var s0 := Scene([row], map[], map["a" := 0], 1, {}, {"1"});
    var s1 := Scene([row], map[1 := held], map["a" := 0], 1, {}, {"1"});
    var s2 := Scene([row], map[1 := held, 2 := held], map["a" := 0], 1, {}, {"1"});
    var s3 := Scene([used], map[1 := Marked(OWNER, 0), 2 := held], map["a" := 0], 1, {"a"}, {"1"});
    var s4 := Scene([used], map[1 := Marked(OWNER, 0), 2 := Marked(OWNER, 0)], map["a" := 0], 1, {"a"}, {"1"});
    assert {} + {"a"} == {"a"} == {"a"} + {"a"};
    assert map[1 := held, 2 := held][1 := Marked(OWNER, 0)] == map[1 := Marked(OWNER, 0), 2 := held];
    assert map[1 := Marked(OWNER, 0), 2 := held][2 := Marked(OWNER, 0)] == map[1 := Marked(OWNER, 0), 2 := Marked(OWNER, 0)];
    NoStep(s4);
    FirstStep(s3, Mark(2), []);
    FirstStep(s2, Mark(1), [Mark(2)] + []);
    FirstStep(s1, Select("a", 2), [Mark(1)] + ([Mark(2)] + []));
    FirstStep(s0, Select("a", 1), [Select("a", 2)] + ([Mark(1)] + ([Mark(2)] + [])));
    assert [Select("a", 1)] + ([Select("a", 2)] + ([Mark(1)] + ([Mark(2)] + []))) == BOTH_MARK;
  }

  lemma BothCreateRun()
    ensures
      var used := TokenRow("1", "a", Some(0));
      var s := Scene([used], map[1 := Marked(OWNER, 0), 2 := Marked(OWNER, 0)], map["a" := 0], 1, {"a"}, {"1"});
      && Runs(s, BOTH_CREATE) && Validations(s, BOTH_CREATE, "a") == 0
      && End(s, BOTH_CREATE) == Scene([used, TokenRow("2", "b", None), TokenRow("3", "c", None)], map[],
                                      map["a" := 0, "b" := 0, "c" := 0], 1, {"a"}, {"1", "2", "3"})
  {
    var used, b, c := TokenRow("1", "a", Some(0)), TokenRow("2", "b", None), TokenRow("3", "c", None);
    var both, one := map[1 := Marked(OWNER, 0), 2 := Marked(OWNER, 0)], map[2 := Marked(OWNER, 0)];
    CreateScene(1, "2", "b", [used], both, map["a" := 0], 1, {"a"}, {"1"});
    CreateScene(2, "3", "c", [used, b], one, map["a" := 0, "b" := 0], 1, {"a"}, {"1", "2"});
    var s0 := Scene([used], both, map["a" := 0], 1, {"a"}, {"1"});
    var s1 := Scene([used, b], one, map["a" := 0, "b" := 0], 1, {"a"}, {"1", "2"});
    var s2 := Scene([used, b, c], map[], map["a" := 0, "b" := 0, "c" := 0], 1, {"a"}, {"1", "2", "3"});
    assert [used] + [b] == [used, b] && [used, b] + [c] == [used, b, c];
    assert both - {1} == one && one - {2} == map[];
    assert map["a" := 0]["b" := 0] == map["a" := 0, "b" := 0] && map["a" := 0, "b" := 0]["c" := 0] == map["a" := 0, "b" := 0, "c" := 0];
    assert {"1"} + {"2"} == {"1", "2"} && {"1", "2"} + {"3"} == {"1", "2", "3"};
    hide Scene, After, Enabled, Runs, End, Validations;
    NoStep(s2);
    FirstStep(s1, Create(2, "3", "c", 100), []);
    FirstStep(s0, Create(1, "2", "b", 100), [Create(2, "3", "c", 100)] + []);
    assert [Create(1, "2", "b", 100)] + ([Create(2, "3", "c", 100)] + []) == BOTH_CREATE;
  }

  lemma {:induction false} RunsConcat(s: System, a: seq<Step>, b: seq<Step>, hash: string)
    requires Runs(s, a) && Runs(End(s, a), b)
    ensures Runs(s, a + b) && End(s, a + b) == End(End(s, a), b)
    ensures Validations(s, a + b, hash) == Validations(s, a, hash) + Validations(End(s, a), b, hash)
    decreases |a|
  {
    if a == [] {
      assert a + b == b;
    } else {
      assert (a + b)[0] == a[0] && (a + b)[1..] == a[1..] + b;
      RunsConcat(After(s, a[0]), a[1..], b, hash);
    }
  }

  /**
   From the start: both requests that selected the token validate it, and each goes on to create a
   token of its own, so that the lineage ends with two unused tokens.
   */
  lemma ValidatesTwice()
    ensures
      var run := FIRST_TOKEN + BOTH_MARK + BOTH_CREATE;
      && Runs(Start(0), run) && Validations(Start(0), run, "a") == 2 && Overlap(Start(0), run, "a")
      && UnusedOf(End(Start(0), run), 0) == {"b", "c"} && !AtMostOneHeld(Start(0), run, 0) && !NoCrowding(Start(0), run, 0)
  {
    FirstTokenRun();
    BothMarkRun();
    BothCreateRun();
    LineageOfTwo();
    hide Scene, After, Enabled, Runs, End, Validations, Start, UnusedOf, AtMostOneHeld, NoCrowding;
    RunsConcat(Start(0), FIRST_TOKEN, BOTH_MARK, "a");
    RunsConcat(Start(0), FIRST_TOKEN + BOTH_MARK, BOTH_CREATE, "a");
    var run := FIRST_TOKEN + BOTH_MARK + BOTH_CREATE;
    ValidatesAtMostOnceIff(0, run, "a");
    OneHeldIff(0, run, 0);
    HeldInTheEnd(Start(0), run, 0);
    assert |{"b", "c"}| == 2;
  }

  lemma LineageOfTwo()
    ensures
      UnusedOf(Scene([TokenRow("1", "a", Some(0)), TokenRow("2", "b", None), TokenRow("3", "c", None)], map[],
                     map["a" := 0, "b" := 0, "c" := 0], 1, {"a"}, {"1", "2", "3"}), 0) == {"b", "c"}
  {
    var a, b, c := TokenRow("1", "a", Some(0)), TokenRow("2", "b", None), TokenRow("3", "c", None);
    var tokens := [a, b, c];
    assert b in tokens && c in tokens && !Unused(a);
    assert forall row :: row in tokens <==> row == a || row == b || row == c;
  }

  // ---------- A lineage crowded by a token that was never validated ----------

  /** Two requests select the token, one rotates it; a third selects the next one; a revocation deletes both; the others mark. */
  const ROTATED_ONCE: seq<Step> := [Select("a", 1), Select("a", 2), Mark(1), Create(1, "2", "b", 100)]

  const REVOKED: seq<Step> := [Select("b", 3), Revoke(0, "", "s"), Sweep(0)]

  const LATE_MARKS: seq<Step> := [Mark(2), Mark(3)]

  lemma StepOn(s: System, a: Step, t: System, rest: seq<Step>, line: nat)
    requires Enabled(s, a) && After(s, a) == t && !Revalidates(s, a, line)
    requires Runs(t, rest) && NoRevalidation(t, rest, line)
    ensures Runs(s, [a] + rest) && End(s, [a] + rest) == End(t, rest) && NoRevalidation(s, [a] + rest, line)
  {
    assert ([a] + rest)[0] == a && ([a] + rest)[1..] == rest;
  }

  function SecondRow(): Row {
    TokenRow("2", "b", None)
  }

  /** The state after the second token has been created, with the other request still holding the first one. */
  function Rotated(flights: map<nat, Flight>): System {
    Scene([TokenRow("1", "a", Some(0)), SecondRow()], flights, map["a" := 0, "b" := 0], 1, {"a"}, {"1", "2"})
  }

  /** The state after the revocation of the session. */
  function Emptied(flights: map<nat, Flight>, spent: set<string>): System {
    var s := Rotated(flights);
    s.(tables := Tables(map[], [], map[]), spent := spent)
  }

  lemma SelectSecond(flights: map<nat, Flight>)
    requires 3 !in flights
    ensures Enabled(Rotated(flights), Select("b", 3))
    ensures After(Rotated(flights), Select("b", 3)) == Rotated(flights[3 := Selected(SecondRow(), 0)])
  {
    var tokens := [TokenRow("1", "a", Some(0)), SecondRow()];
    assert tokens[0].hash != "b" by { assert "a"[0] != "b"[0]; }
    assert Live(tokens[1], "b", 0);
    assert FirstLive(tokens, "b", 0) == 1;
  }

  lemma RevokeRotated(flights: map<nat, Flight>)
    ensures
      var s := Rotated(flights);
      var t := s.(tables := Tables(map[], s.tables.tokens, map[]), revoking := map[0 := "s"]);
      && Enabled(s, Revoke(0, "", "s")) && After(s, Revoke(0, "", "s")) == t
      && Enabled(t, Sweep(0)) && After(t, Sweep(0)) == Emptied(flights, {"a"})
  {
    var s := Rotated(flights);
    assert |"s"| == 1;
    assert s.tables.sessions - {"s"} == map[];
    assert {"s"} + {"s"} == {"s"};
    assert map[0 := "s"] - {0} == map[];
    assert Without(s.tables.tokens, "s") == [];
  }

  lemma MarkEmptied(flight: nat, row: Row, flights: map<nat, Flight>, spent: set<string>)
    requires flight in flights && flights[flight] == Selected(row, 0) && row.user == "u" && row.session == "s"
    ensures
      var s := Emptied(flights, spent);
      && Enabled(s, Mark(flight))
      && After(s, Mark(flight)) == Emptied(flights[flight := Marked(OWNER, 0)], spent + {row.hash})
  {
  }

  lemma EmptiedHoldings(flights: map<nat, Flight>, spent: set<string>)
    ensures UnusedOf(Emptied(flights, spent), 0) == {}
    ensures RotationsOf(Emptied(flights, spent), 0) == set f | f in flights && flights[f].Marked? && flights[f].line == 0
  {
  }

  /**
   A run from the start in which no token already validated is marked while the lineage holds anything,
   and which ends with two refreshes of it in flight: the revocation has deleted a token that a request
   holds, so that another request can validate the token before it.
   */
  lemma RevokedTokenCrowds()
    ensures
      var run := FIRST_TOKEN + (ROTATED_ONCE + (REVOKED + LATE_MARKS));
      && Runs(Start(0), run) && NoRevalidation(Start(0), run, 0) && RotationsOf(End(Start(0), run), 0) == {2, 3}
      && !AtMostOneHeld(Start(0), run, 0)
  {
    FirstLeads();
    RotatesOnce();
    RevokesAll();
    MarksLate();
    hide Start, Leads, OneToken, OneRotated, BothHolding, BothMarked;
    ThenLeads(OneRotated(), REVOKED, BothHolding(), LATE_MARKS, BothMarked(), 0);
    ThenLeads(OneToken(), ROTATED_ONCE, OneRotated(), REVOKED + LATE_MARKS, BothMarked(), 0);
    ThenLeads(Start(0), FIRST_TOKEN, OneToken(), ROTATED_ONCE + (REVOKED + LATE_MARKS), BothMarked(), 0);
    EndsCrowded(FIRST_TOKEN + (ROTATED_ONCE + (REVOKED + LATE_MARKS)));
  }

  /** The run leads from one state to the other, and marks no token of the lineage again while it holds anything. */
  ghost predicate Leads(s: System, run: seq<Step>, t: System, line: nat) {
    Runs(s, run) && End(s, run) == t && NoRevalidation(s, run, line)
  }

  function OneToken(): System {
    Scene([TokenRow("1", "a", None)], map[], map["a" := 0], 1, {}, {"1"})
  }

  function OneRotated(): System {
    Rotated(map[2 := Selected(TokenRow("1", "a", None), 0)])
  }

  function BothHolding(): System {
    Emptied(map[2 := Selected(TokenRow("1", "a", None), 0), 3 := Selected(SecondRow(), 0)], {"a"})
  }

  function BothMarked(): System {
    Emptied(map[2 := Marked(OWNER, 0), 3 := Marked(OWNER, 0)], {"a", "b"})
  }

  lemma FirstLeads()
    ensures Leads(Start(0), FIRST_TOKEN, OneToken(), 0)
  {
    FirstTokenRun();
    hide Scene, After, Enabled, Runs, End, Start, NoRevalidation;
    NoMarks(Start(0), FIRST_TOKEN, 0);
  }

  lemma ThenLeads(s: System, a: seq<Step>, t: System, b: seq<Step>, u: System, line: nat)
    requires Leads(s, a, t, line) && Leads(t, b, u, line)
    ensures Leads(s, a + b, u, line)
  {
    hide Runs, End, NoRevalidation;
    RunsConcat(s, a, b, "");
    RevalidationConcat(s, a, b, line);
  }

  lemma EndsCrowded(run: seq<Step>)
    requires Leads(Start(0), run, BothMarked(), 0)
    ensures Runs(Start(0), run) && NoRevalidation(Start(0), run, 0) && RotationsOf(End(Start(0), run), 0) == {2, 3}
    ensures !AtMostOneHeld(Start(0), run, 0)
  {
    EmptiedHoldings(map[2 := Marked(OWNER, 0), 3 := Marked(OWNER, 0)], {"a", "b"});
    hide Runs, End, NoRevalidation, Start, AtMostOneHeld, Emptied, UnusedOf, RotationsOf;
    HeldInTheEnd(Start(0), run, 0);
    TwoHeld(BothMarked(), 0);
  }

  lemma TwoHeld(s: System, line: nat)
    ensures RotationsOf(s, line) == {2, 3} ==> Holdings(s, line) > 1
  {
    hide RotationsOf, UnusedOf;
    assert |{2, 3}| == 2;
  }

  lemma {:induction false} NoMarks(s: System, run: seq<Step>, line: nat)
    requires Runs(s, run) && forall i :: 0 <= i < |run| ==> !run[i].Mark?
    ensures NoRevalidation(s, run, line)
    decreases |run|
  {
    if run != [] {
      assert !run[0].Mark?;
      assert forall i :: 0 <= i < |run[1..]| ==> run[1..][i] == run[i + 1];
      hide After, Enabled;
      NoMarks(After(s, run[0]), run[1..], line);
    }
  }

  lemma {:induction false} RevalidationConcat(s: System, a: seq<Step>, b: seq<Step>, line: nat)
    requires Runs(s, a) && Runs(End(s, a), b) && Runs(s, a + b)
    ensures NoRevalidation(s, a + b, line) <==> NoRevalidation(s, a, line) && NoRevalidation(End(s, a), b, line)
    decreases |a|
  {
    if a == [] {
      assert a + b == b;
    } else {
      assert (a + b)[0] == a[0] && (a + b)[1..] == a[1..] + b;
      hide After, Enabled, Revalidates;
      RevalidationConcat(After(s, a[0]), a[1..], b, line);
    }
  }

  lemma RotatesOnce()
    ensures Leads(OneToken(), ROTATED_ONCE, OneRotated(), 0)
  {
    var row, used := TokenRow("1", "a", None), TokenRow("1", "a", Some(0));
    var held, marked := Selected(row, 0), Marked(OWNER, 0);
    SelectScene(1, map[]);
    SelectScene(2, map[1 := held]);
    MarkScene(1, row, map[1 := held, 2 := held], {});
    CreateScene(1, "2", "b", [used], map[1 := marked, 2 := held], map["a" := 0], 1, {"a"}, {"1"});
    var s0 := Scene([row], map[], map["a" := 0], 1, {}, {"1"});
    var s1 := Scene([row], map[1 := held], map["a" := 0], 1, {}, {"1"});
    var s2 := Scene([row], map[1 := held, 2 := held], map["a" := 0], 1, {}, {"1"});
    var s3 := Scene([used], map[1 := marked, 2 := held], map["a" := 0], 1, {"a"}, {"1"});
    var s4 := Rotated(map[2 := held]);
    Unspent(map[1 := held, 2 := held]);
    FlightMaps(held, marked);
    assert [used] + [TokenRow("2", "b", None)] == [used, SecondRow()];
    assert s4 == Scene([used, SecondRow()], map[2 := held], map["a" := 0, "b" := 0], 1, {"a"}, {"1", "2"});
    assert NoRevalidation(s4, [], 0);
    hide Scene, After, Enabled, Runs, End, NoRevalidation, Rotated, Revalidates;
    NoStep(s4);
    StepOn(s3, Create(1, "2", "b", 100), s4, [], 0);
    StepOn(s2, Mark(1), s3, [Create(1, "2", "b", 100)] + [], 0);
    StepOn(s1, Select("a", 2), s2, [Mark(1)] + ([Create(1, "2", "b", 100)] + []), 0);
    StepOn(s0, Select("a", 1), s1, [Select("a", 2)] + ([Mark(1)] + ([Create(1, "2", "b", 100)] + [])), 0);
    assert [Select("a", 1)] + ([Select("a", 2)] + ([Mark(1)] + ([Create(1, "2", "b", 100)] + []))) == ROTATED_ONCE;
  }

  lemma FlightMaps(held: Flight, marked: Flight)
    ensures map[1 := held, 2 := held][1 := marked] == map[1 := marked, 2 := held]
    ensures map[1 := marked, 2 := held] - {1} == map[2 := held]
    ensures map["a" := 0]["b" := 0] == map["a" := 0, "b" := 0]
    ensures {} + {"a"} == {"a"} && {"1"} + {"2"} == {"1", "2"}
  {
  }

  lemma Unspent(flights: map<nat, Flight>)
    requires 1 in flights && flights[1] == Selected(TokenRow("1", "a", None), 0)
    ensures
      var s := Scene([TokenRow("1", "a", None)], flights, map["a" := 0], 1, {}, {"1"});
      Enabled(s, Mark(1)) && !Revalidates(s, Mark(1), 0)
  {
  }

  lemma RevokesAll()
    ensures Leads(OneRotated(), REVOKED, BothHolding(), 0)
  {
    var held, second := Selected(TokenRow("1", "a", None), 0), Selected(SecondRow(), 0);
    var both := map[2 := held, 3 := second];
    var s0, s1, s3 := Rotated(map[2 := held]), Rotated(both), Emptied(both, {"a"});
    var s2 := s1.(tables := Tables(map[], s1.tables.tokens, map[]), revoking := map[0 := "s"]);
    SelectSecond(map[2 := held]);
    RevokeRotated(both);
    assert map[2 := held][3 := second] == both;
    assert NoRevalidation(s3, [], 0);
    hide Scene, After, Enabled, Runs, End, NoRevalidation, Rotated, Emptied;
    NoStep(s3);
    StepOn(s2, Sweep(0), s3, [], 0);
    StepOn(s1, Revoke(0, "", "s"), s2, [Sweep(0)] + [], 0);
    StepOn(s0, Select("b", 3), s1, [Revoke(0, "", "s")] + ([Sweep(0)] + []), 0);
    assert [Select("b", 3)] + ([Revoke(0, "", "s")] + ([Sweep(0)] + [])) == REVOKED;
  }

  lemma MarksLate()
    ensures Leads(BothHolding(), LATE_MARKS, BothMarked(), 0)
  {
    var held, marked, second := Selected(TokenRow("1", "a", None), 0), Marked(OWNER, 0), Selected(SecondRow(), 0);
    var both, one, none := map[2 := held, 3 := second], map[2 := marked, 3 := second], map[2 := marked, 3 := marked];
    var s0, s1, s2 := Emptied(both, {"a"}), Emptied(one, {"a"}), Emptied(none, {"a", "b"});
    MarkEmptied(2, TokenRow("1", "a", None), both, {"a"});
    MarkEmptied(3, SecondRow(), one, {"a"});
    EmptiedHoldings(none, {"a", "b"});
    NotRevalidated(both);
    NeverValidated(one);
    assert both[2 := marked] == one && one[3 := marked] == none;
    assert {"a"} + {"a"} == {"a"} && {"a"} + {"b"} == {"a", "b"};
    assert NoRevalidation(s2, [], 0);
    hide Scene, After, Enabled, Runs, End, NoRevalidation, Emptied, UnusedOf, RotationsOf, Revalidates;
    NoStep(s2);
    StepOn(s1, Mark(3), s2, [], 0);
    StepOn(s0, Mark(2), s1, [Mark(3)] + [], 0);
    assert [Mark(2)] + ([Mark(3)] + []) == LATE_MARKS;
  }

  lemma NotRevalidated(flights: map<nat, Flight>)
    requires 2 in flights && flights[2].Selected? && forall f :: f in flights ==> !flights[f].Marked?
    ensures Enabled(Emptied(flights, {"a"}), Mark(2)) && !Revalidates(Emptied(flights, {"a"}), Mark(2), 0)
  {
    EmptiedHoldings(flights, {"a"});
    assert RotationsOf(Emptied(flights, {"a"}), 0) == {};
  }

  lemma NeverValidated(flights: map<nat, Flight>)
    requires 3 in flights && flights[3] == Selected(SecondRow(), 0)
    ensures Enabled(Emptied(flights, {"a"}), Mark(3)) && !Revalidates(Emptied(flights, {"a"}), Mark(3), 0)
  {
    assert "a"[0] != "b"[0];
  }
}

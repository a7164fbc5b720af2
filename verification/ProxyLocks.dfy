/**
 What the proxy's locks give and do not give: each cell is locked by itself, so a value compared
 under one lock may be stale when it is written under another.
 */
module ProxyLocks {
  import opened PolicyEngine
  import opened PolicyProxy
  import opened Options

  // ---------- The maximum evaluation time ----------

  /** The request has passed its update of the maximum. */
  predicate Past(p: Phase) {
    p.Maximized? || p.Counted? || p.Closed?
  }

  /** The maximum is the largest time of the requests past their update, 0 if there is none. */
  ghost predicate MaxRight(s: Proxy) {
    && (forall r :: r in s.requests && Past(s.requests[r]) ==> s.requests[r].e.dt <= s.cells.max)
    && (s.cells.max == 0.0 || exists r :: r in s.requests && Past(s.requests[r]) && s.requests[r].e.dt == s.cells.max)
  }

  /** The step writes a time that was greater than the maximum when compared, but no longer is. */
  predicate Stale(s: Proxy, a: Step) {
    && a.WriteMax? && a.r in s.requests && s.requests[a.r].Compared?
    && s.requests[a.r].greater && s.requests[a.r].e.dt < s.cells.max
  }

  /** A step lowers the maximum exactly if it is such a write. */
  lemma MaxLoweredIff(lib: Libraries, s: Proxy, a: Step)
    requires At(s, a)
    ensures After(lib, s, a).cells.max < s.cells.max <==> Stale(s, a)
  {
    hide DecisionOn, LoadAndVerify, Blank;
  }

  /** Times are not negative, and a comparison found not greater is not above the maximum. */
  ghost predicate TimesRight(s: Proxy) {
    && s.cells.max >= 0.0
    && (forall r :: r in s.requests && s.requests[r].Evaluated? ==> s.requests[r].e.dt >= 0.0)
    && (forall r :: r in s.requests && s.requests[r].Timed? ==> s.requests[r].e.dt >= 0.0)
    && (forall r :: r in s.requests && s.requests[r].Compared? ==>
         s.requests[r].e.dt >= 0.0 && (!s.requests[r].greater ==> s.requests[r].e.dt <= s.cells.max))
  }

  lemma FreshStep(lib: Libraries, s: Proxy, a: Step)
    requires At(s, a) && MaxRight(s) && TimesRight(s) && !Stale(s, a)
    ensures MaxRight(After(lib, s, a)) && TimesRight(After(lib, s, a))
  {
    var t := After(lib, s, a);
    MaxLoweredIff(lib, s, a);
    if a.WriteMax? {
      WriteStep(lib, s, a);
    } else {
      OtherStep(lib, s, a);
    }
  }

  lemma WriteStep(lib: Libraries, s: Proxy, a: Step)
    requires At(s, a) && a.WriteMax? && MaxRight(s) && TimesRight(s) && !Stale(s, a)
    ensures MaxRight(After(lib, s, a)) && TimesRight(After(lib, s, a))
  {
    hide DecisionOn;
    var t, p := After(lib, s, a), s.requests[a.r];
    assert t.requests == s.requests[a.r := Maximized(p.e)];
    if p.greater {
      assert Past(t.requests[a.r]) && t.requests[a.r].e.dt == t.cells.max;
    } else if s.cells.max != 0.0 {
      var r :| r in s.requests && Past(s.requests[r]) && s.requests[r].e.dt == s.cells.max;
      assert r in t.requests && Past(t.requests[r]) && t.requests[r].e.dt == t.cells.max;
    }
  }

  /** Other steps leave the maximum alone, and only a request already past stays past. */
  lemma OtherEffect(lib: Libraries, s: Proxy, a: Step)
    requires At(s, a) && !a.WriteMax?
    ensures After(lib, s, a).cells.max == s.cells.max
    ensures After(lib, s, a).requests ==
            if IsRequestStep(a) then s.requests[a.r := NextPhase(s, a)] else s.requests
    ensures
      IsRequestStep(a) ==>
        var p := NextPhase(s, a);
        && (Past(p) <==> a.r in s.requests && Past(s.requests[a.r]))
        && (Past(p) ==> p.e == s.requests[a.r].e)
  {
    hide DecisionOn, LoadAndVerify, Blank;
  }

  lemma OtherTimes(s: Proxy, a: Step)
    requires At(s, a) && !a.WriteMax? && IsRequestStep(a) && TimesRight(s)
    ensures
      var p := NextPhase(s, a);
      && (p.Evaluated? || p.Timed? ==> p.e.dt >= 0.0)
      && (p.Compared? ==> p.e.dt >= 0.0 && (!p.greater ==> p.e.dt <= s.cells.max))
  {
    hide DecisionOn;
  }

  lemma OtherStep(lib: Libraries, s: Proxy, a: Step)
    requires At(s, a) && !a.WriteMax? && MaxRight(s) && TimesRight(s)
    ensures MaxRight(After(lib, s, a)) && TimesRight(After(lib, s, a))
  {
    OtherEffect(lib, s, a);
    if IsRequestStep(a) {
      OtherTimes(s, a);
    }
    hide After, At, NextPhase, Past;
    var t := After(lib, s, a);
    if s.cells.max != 0.0 {
      var r :| r in s.requests && Past(s.requests[r]) && s.requests[r].e.dt == s.cells.max;
      assert r in t.requests && Past(t.requests[r]) && t.requests[r].e.dt == t.cells.max;
    }
  }

  lemma StaleStep(lib: Libraries, s: Proxy, a: Step)
    requires At(s, a) && MaxRight(s) && TimesRight(s) && Stale(s, a)
    ensures !MaxRight(After(lib, s, a))
  {
    hide DecisionOn;
    var t := After(lib, s, a);
    var r :| r in s.requests && Past(s.requests[r]) && s.requests[r].e.dt == s.cells.max;
    assert r in t.requests && Past(t.requests[r]) && t.requests[r].e.dt > t.cells.max;
  }

  ghost predicate AlwaysRight(lib: Libraries, s: Proxy, run: seq<Step>)
    requires Runs(lib, s, run)
    decreases |run|
  {
    MaxRight(s) && (run == [] || AlwaysRight(lib, After(lib, s, run[0]), run[1..]))
  }

  predicate NoStaleWrite(lib: Libraries, s: Proxy, run: seq<Step>)
    requires Runs(lib, s, run)
    decreases |run|
  {
    run == [] || (!Stale(s, run[0]) && NoStaleWrite(lib, After(lib, s, run[0]), run[1..]))
  }

  lemma {:induction false} RightWhileFresh(lib: Libraries, s: Proxy, run: seq<Step>)
    requires Runs(lib, s, run) && MaxRight(s) && TimesRight(s)
    ensures AlwaysRight(lib, s, run) <==> NoStaleWrite(lib, s, run)
    decreases |run|
  {
    if run != [] {
      var t := After(lib, s, run[0]);
      if Stale(s, run[0]) {
        StaleStep(lib, s, run[0]);
        hide MaxRight, After, At, Stale;
        assert AlwaysRight(lib, t, run[1..]) ==> MaxRight(t);
      } else {
        FreshStep(lib, s, run[0]);
        hide MaxRight, TimesRight, After, At, Stale;
        RightWhileFresh(lib, t, run[1..]);
      }
    }
  }

  /**
   In every run the maximum is right in every state exactly if no write of it is stale: the largest
   time of the requests past their update.
   */
  lemma MaximumRightIff(lib: Libraries, chip: Chip, now: int, run: seq<Step>)
    requires Runs(lib, Start(chip, now), run)
    ensures AlwaysRight(lib, Start(chip, now), run) <==> NoStaleWrite(lib, Start(chip, now), run)
  {
    RightWhileFresh(lib, Start(chip, now), run);
  }

  /** No request compares while another is between its comparison and its write. */
  predicate OneAtATime(lib: Libraries, s: Proxy, run: seq<Step>)
    requires Runs(lib, s, run)
    decreases |run|
  {
    run == [] || ((run[0].Compare? ==> forall r :: r in s.requests ==> !s.requests[r].Compared?)
                  && OneAtATime(lib, After(lib, s, run[0]), run[1..]))
  }

  /** At most one request is between comparison and write, and what it found still holds. */
  ghost predicate Undisturbed(s: Proxy) {
    && (forall r, q :: r in s.requests && q in s.requests && s.requests[r].Compared? && s.requests[q].Compared? ==> r == q)
    && (forall r :: r in s.requests && s.requests[r].Compared? && s.requests[r].greater ==> s.requests[r].e.dt > s.cells.max)
  }

  lemma UndisturbedStep(lib: Libraries, s: Proxy, a: Step)
    requires At(s, a) && Undisturbed(s) && (a.Compare? ==> forall r :: r in s.requests ==> !s.requests[r].Compared?)
    ensures !Stale(s, a) && Undisturbed(After(lib, s, a))
  {
    hide DecisionOn, LoadAndVerify, Blank;
  }

  lemma {:induction false} OneAtATimeIsFresh(lib: Libraries, s: Proxy, run: seq<Step>)
    requires Runs(lib, s, run) && Undisturbed(s) && OneAtATime(lib, s, run)
    ensures NoStaleWrite(lib, s, run)
    decreases |run|
  {
    if run != [] {
      UndisturbedStep(lib, s, run[0]);
      hide Undisturbed, After, At, Stale;
      OneAtATimeIsFresh(lib, After(lib, s, run[0]), run[1..]);
    }
  }

  /** In particular it is right in every run in which requests compare and write one at a time. */
  lemma MaximumRightOneAtATime(lib: Libraries, chip: Chip, now: int, run: seq<Step>)
    requires Runs(lib, Start(chip, now), run) && OneAtATime(lib, Start(chip, now), run)
    ensures AlwaysRight(lib, Start(chip, now), run)
  {
    OneAtATimeIsFresh(lib, Start(chip, now), run);
    MaximumRightIff(lib, chip, now, run);
  }

  // ---------- The sum of the times ----------

  /** The sum of finitely many times. */
  ghost function Total(times: map<nat, real>): real {
    if times == map[] then 0.0 else var r :| r in times; times[r] + Total(times - {r})
  }

  lemma {:induction false} TotalWithout(times: map<nat, real>, r: nat)
    requires r in times
    ensures Total(times) == times[r] + Total(times - {r})
    decreases |times|
  {
    var q :| q in times && Total(times) == times[q] + Total(times - {q});
    if q != r {
      TotalWithout(times - {q}, r);
      TotalWithout(times - {r}, q);
      assert times - {q} - {r} == times - {r} - {q};
    }
  }

  lemma TotalWith(times: map<nat, real>, r: nat, dt: real)
    requires r !in times
    ensures Total(times[r := dt]) == Total(times) + dt
  {
    TotalWithout(times[r := dt], r);
    assert times[r := dt] - {r} == times;
  }

  /** The request has passed its addition to the sum. */
  predicate Summed(p: Phase) {
    p.Timed? || p.Compared? || p.Maximized? || p.Counted? || p.Closed?
  }

  function TimesOf(requests: map<nat, Phase>): map<nat, real> {
    map r | r in requests && Summed(requests[r]) :: requests[r].e.dt
  }

  lemma SumStep(lib: Libraries, s: Proxy, a: Step)
    requires At(s, a) && s.cells.sum == Total(TimesOf(s.requests))
    ensures After(lib, s, a).cells.sum == Total(TimesOf(After(lib, s, a).requests))
  {
    hide DecisionOn, LoadAndVerify, Blank, Total;
    var t := After(lib, s, a);
    if a.AddTime? {
      var dt := s.requests[a.r].e.dt;
      assert TimesOf(t.requests) == TimesOf(s.requests)[a.r := dt];
      TotalWith(TimesOf(s.requests), a.r, dt);
    } else {
      SumUntouched(lib, s, a);
    }
  }

  lemma SumUntouched(lib: Libraries, s: Proxy, a: Step)
    requires At(s, a) && !a.AddTime?
    ensures After(lib, s, a).cells.sum == s.cells.sum && TimesOf(After(lib, s, a).requests) == TimesOf(s.requests)
  {
    hide DecisionOn, LoadAndVerify, Blank;
  }

  lemma {:induction false} SumStays(lib: Libraries, s: Proxy, run: seq<Step>)
    requires Runs(lib, s, run) && s.cells.sum == Total(TimesOf(s.requests))
    ensures End(lib, s, run).cells.sum == Total(TimesOf(End(lib, s, run).requests))
    decreases |run|
  {
    if run != [] {
      SumStep(lib, s, run[0]);
      hide At, After, TimesOf, Total;
      SumStays(lib, After(lib, s, run[0]), run[1..]);
    }
  }

  /** After every run eval_ms_sum is the sum of the times of the requests that have added theirs. */
  lemma SumIsTotal(lib: Libraries, chip: Chip, now: int, run: seq<Step>)
    requires Runs(lib, Start(chip, now), run)
    ensures End(lib, Start(chip, now), run).cells.sum == Total(TimesOf(End(lib, Start(chip, now), run).requests))
  {
    assert TimesOf(Start(chip, now).requests) == map[];
    SumStays(lib, Start(chip, now), run);
  }

  // ---------- A run in which it is lost ----------

  function ToComparison(r: nat, facts: Context, dt: real): seq<Step> {
    ToEvaluation(r, facts, dt) + [AddTime(r), Compare(r)]
  }

  /** The state once a request has, alone, come to the end of its comparison. */
  function AtComparison(s: Proxy, r: nat, facts: Context, dt: real): Proxy
    requires DecisionOn(s.cells.chip, Framed(Seen(facts, s.cells.panicUntil, s.now))) != None
  {
    With(s, r, Compared(EvaluationNow(s, facts, dt), dt > s.cells.max), WithTime(s.cells, dt))
  }

  lemma ComesToComparison(lib: Libraries, s: Proxy, r: nat, facts: Context, dt: real, rest: seq<Step>)
    requires r !in s.requests && dt >= 0.0
    requires DecisionOn(s.cells.chip, Framed(Seen(facts, s.cells.panicUntil, s.now))) != None
    requires Runs(lib, AtComparison(s, r, facts, dt), rest)
    ensures Runs(lib, s, ToComparison(r, facts, dt) + rest)
    ensures End(lib, s, ToComparison(r, facts, dt) + rest) == End(lib, AtComparison(s, r, facts, dt), rest)
  {
    hide DecisionOn, Runs, End, Framed;
    var c, e, c1 := s.cells, EvaluationNow(s, facts, dt), WithTime(s.cells, dt);
    ThenStep(lib, s, r, Timed(e), c1, Compare(r), Compared(e, dt > c.max), c1, rest);
    ThenStep(lib, s, r, Evaluated(e), c, AddTime(r), Timed(e), c1, [Compare(r)] + rest);
    hide EvaluationNow;
    ComesToEvaluation(lib, s, r, facts, dt, [AddTime(r)] + ([Compare(r)] + rest));
    assert ToEvaluation(r, facts, dt) + ([AddTime(r)] + ([Compare(r)] + rest)) == ToComparison(r, facts, dt) + rest;
  }

  /** Two requests compare first, the slower one writes first. */
  function LosingRun(facts: Context, fast: real, slow: real): seq<Step> {
    ToComparison(0, facts, fast) + (ToComparison(1, facts, slow) + [WriteMax(1), WriteMax(0)])
  }

  /**
   From the start, for every request that can be decided and any two times: both requests compare
   before either writes, and the smaller time written last stays. The maximum drops.
   */
  lemma MaximumLost(lib: Libraries, chip: Chip, now: int, facts: Context, fast: real, slow: real)
    requires DecisionOn(chip, Framed(Seen(facts, 0, now))) != None && 0.0 < fast < slow
    ensures Runs(lib, Start(chip, now), LosingRun(facts, fast, slow))
    ensures
      var s := End(lib, Start(chip, now), LosingRun(facts, fast, slow));
      && s.cells.max == fast
      && 1 in s.requests && Past(s.requests[1]) && s.requests[1].e.dt == slow > s.cells.max
      && !MaxRight(s)
  {
    var s0 := Start(chip, now);
    var s1 := AtComparison(s0, 0, facts, fast);
    var s2 := AtComparison(s1, 1, facts, slow);
    LateWrites(lib, s2, 0, 1);
    hide DecisionOn, Runs, End, Framed, After, At;
    ComesToComparison(lib, s1, 1, facts, slow, [WriteMax(1), WriteMax(0)]);
    ComesToComparison(lib, s0, 0, facts, fast, ToComparison(1, facts, slow) + [WriteMax(1), WriteMax(0)]);
  }

  lemma LateWrites(lib: Libraries, s: Proxy, a: nat, b: nat)
    requires a != b && a in s.requests && b in s.requests
    requires s.requests[a].Compared? && s.requests[b].Compared? && s.requests[a].greater && s.requests[b].greater
    ensures Runs(lib, s, [WriteMax(b), WriteMax(a)])
    ensures
      var t := End(lib, s, [WriteMax(b), WriteMax(a)]);
      && t.cells.max == s.requests[a].e.dt
      && b in t.requests && t.requests[b] == Maximized(s.requests[b].e)
  {
    hide DecisionOn;
    var t := After(lib, s, WriteMax(b));
    assert [WriteMax(b), WriteMax(a)][1..] == [WriteMax(a)] && [WriteMax(a)][1..] == [];
    assert Runs(lib, t, [WriteMax(a)]);
    assert End(lib, t, [WriteMax(a)]) == After(lib, t, WriteMax(a));
  }
}

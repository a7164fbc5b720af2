/**
 Break-glass and its reason. The end time and the reason are two cells, written one after the other
 under locks of their own, and only the end time is compared with the clock: a reason can outlive the
 break-glass it was given for by expiry, and by a call that sets it being overtaken.
 */
module BreakGlass {
  import opened PolicyEngine
  import opened PolicyProxy
  import opened Options

  /** Break-glass is off, as requests and metrics read it: cleared or expired. */
  predicate Off(s: Proxy) {
    s.now > s.cells.panicUntil
  }

  /** It is off, and a reason for it is still there. */
  predicate ReasonLeft(s: Proxy) {
    Off(s) && s.cells.panicReason != ""
  }

  /** It is on without a reason. */
  predicate Unexplained(s: Proxy) {
    !Off(s) && s.cells.panicReason == ""
  }

  /** The step writes the end time of break-glass: a call that sets or clears it. */
  predicate Switches(a: Step) {
    a.PanicOff? || (a.PanicOn? && a.ttl > 0 && !Blank(a.reason))
  }

  /** The code points with the Unicode property White_Space. */
  const WHITE_SPACE: set<int> := {
    9, 10, 11, 12, 13, 32, 133, 160, 5760, 8192, 8193, 8194, 8195, 8196, 8197, 8198, 8199, 8200, 8201, 8202, 8232, 8233, 8239,
    8287, 12288 }

  /** A call to set break-glass is refused exactly if its time is not positive or its reason is white space throughout. */
  lemma SetRefusedIff(lib: Libraries, s: Proxy, h: nat, ttl: int, reason: string)
    requires At(s, PanicOn(h, ttl, reason))
    ensures After(lib, s, PanicOn(h, ttl, reason)) == s <==>
      ttl <= 0 || forall i :: 0 <= i < |reason| ==> reason[i] as int in WHITE_SPACE
  {
    var t := After(lib, s, PanicOn(h, ttl, reason));
    assert Blank(reason) <==> forall i :: 0 <= i < |reason| ==> reason[i] as int in WHITE_SPACE;
    hide Blank;
    assert ttl > 0 && !Blank(reason) ==> h in t.reasons;
  }

  predicate NoSwitch(run: seq<Step>) {
    forall j :: 0 <= j < |run| ==> !Switches(run[j])
  }

  predicate LastSwitch(run: seq<Step>, i: nat) {
    i < |run| && Switches(run[i]) && NoSwitch(run[i + 1..])
  }

  /** The call that writes its reason last. */
  function LastWriter(run: seq<Step>): Option<nat> {
    if run == [] then None
    else if LastWriter(run[1..]) != None then LastWriter(run[1..])
    else if run[0].WriteReason? then Some(run[0].h) else None
  }

  /** A call under way when the last one to switch does so writes its reason after that one. */
  ghost predicate Overtaking(lib: Libraries, s: Proxy, run: seq<Step>, i: nat, w: nat)
    requires Runs(lib, s, run)
  {
    LastSwitch(run, i) && w in StateAt(lib, s, run, i).reasons && LastWriter(run[i + 1..]) == Some(w)
  }

  ghost predicate OvertakenBySet(lib: Libraries, s: Proxy, run: seq<Step>, i: nat)
    requires Runs(lib, s, run)
  {
    exists w :: Overtaking(lib, s, run, i, w) && StateAt(lib, s, run, i).reasons[w] != ""
  }

  ghost predicate OvertakenByClear(lib: Libraries, s: Proxy, run: seq<Step>, i: nat)
    requires Runs(lib, s, run)
  {
    exists w :: Overtaking(lib, s, run, i, w) && StateAt(lib, s, run, i).reasons[w] == ""
  }

  /** When the end time of the run has passed what the setting step allowed. */
  predicate Expired(lib: Libraries, s: Proxy, run: seq<Step>, i: nat)
    requires Runs(lib, s, run)
  {
    i < |run| && run[i].PanicOn? && End(lib, s, run).now > StateAt(lib, s, run, i).now + run[i].ttl
  }

  // ---------- What requests see of it ----------

  /** The context of a request has the request's own facts, and panic mode exactly if break-glass is not off when it looks. */
  lemma RequestsSee(s: Proxy, facts: Context)
    ensures var ctx := Framed(Seen(facts, s.cells.panicUntil, s.now));
      (ctx.panicMode <==> !Off(s)) && ctx == facts.(panicMode := ctx.panicMode)
  {
  }

  /** Set for a duration, it is on for requests through the last second of it and off from then on, and clearing ends it at once. */
  lemma ActiveThrough(lib: Libraries, s: Proxy, h: nat, ttl: int, reason: string, later: nat, facts: Context)
    requires At(s, PanicOn(h, ttl, reason)) && ttl > 0 && !Blank(reason)
    ensures
      var t := After(lib, After(lib, s, PanicOn(h, ttl, reason)), Tick(later));
      Framed(Seen(facts, t.cells.panicUntil, t.now)).panicMode <==> later <= ttl
    ensures
      At(s, PanicOff(h)) && s.now > 0 ==>
        var t := After(lib, After(lib, s, PanicOff(h)), Tick(later)); !Framed(Seen(facts, t.cells.panicUntil, t.now)).panicMode
  {
    hide Blank, DecisionOn, LoadAndVerify;
  }

  // ---------- What is left to happen after the last switch ----------

  lemma {:induction false} SplitRun(lib: Libraries, s: Proxy, run: seq<Step>, i: nat)
    requires Runs(lib, s, run) && i <= |run|
    ensures Runs(lib, StateAt(lib, s, run, i), run[i..])
    ensures End(lib, StateAt(lib, s, run, i), run[i..]) == End(lib, s, run)
    decreases i
  {
    if i == 0 {
      assert run[0..] == run;
    } else {
      assert run[1..][i - 1..] == run[i..];
      hide After, At;
      SplitRun(lib, After(lib, s, run[0]), run[1..], i - 1);
    }
  }

  lemma WriteStep(lib: Libraries, s: Proxy, a: Step)
    requires At(s, a) && !Switches(a)
    ensures var t := After(lib, s, a);
      && t.cells.panicUntil == s.cells.panicUntil && t.now >= s.now
      && t.reasons == (if a.WriteReason? then s.reasons - {a.h} else s.reasons)
      && t.cells.panicReason == (if a.WriteReason? then s.reasons[a.h] else s.cells.panicReason)
  {
    hide DecisionOn, LoadAndVerify, Blank;
  }

  /** Without a switch, only the reasons of calls under way are written. */
  lemma {:induction false} OnlyWrites(lib: Libraries, s: Proxy, run: seq<Step>)
    requires Runs(lib, s, run) && NoSwitch(run)
    ensures var e := End(lib, s, run);
      && e.cells.panicUntil == s.cells.panicUntil && e.now >= s.now
      && match LastWriter(run)
         case None => e.reasons == s.reasons && e.cells.panicReason == s.cells.panicReason
         case Some(w) => w in s.reasons && e.cells.panicReason == s.reasons[w]
    decreases |run|
  {
    if run != [] {
      var t := After(lib, s, run[0]);
      assert !Switches(run[0]);
      assert forall j :: 0 <= j < |run[1..]| ==> run[1..][j] == run[j + 1];
      WriteStep(lib, s, run[0]);
      hide After, At, Switches;
      OnlyWrites(lib, t, run[1..]);
    }
  }

  lemma SwitchStep(lib: Libraries, s: Proxy, a: Step)
    requires At(s, a) && Switches(a)
    ensures var t := After(lib, s, a);
      && t.cells.panicUntil == (if a.PanicOn? then s.now + a.ttl else 0)
      && a.h !in s.reasons && a.h in t.reasons && (t.reasons[a.h] != "" <==> a.PanicOn?)
      && forall h :: h in t.reasons && h != a.h ==> h in s.reasons && t.reasons[h] == s.reasons[h]
  {
  }

  /** The last switch decides the end time, and its reason is the last one unless it is overtaken. */
  lemma LastSwitchDecides(lib: Libraries, s: Proxy, run: seq<Step>, i: nat)
    requires Runs(lib, s, run) && LastSwitch(run, i) && End(lib, s, run).reasons == map[]
    ensures var e := End(lib, s, run);
      && e.cells.panicUntil == (if run[i].PanicOn? then StateAt(lib, s, run, i).now + run[i].ttl else 0)
      && (e.cells.panicReason != "" <==>
           if run[i].PanicOn? then !OvertakenByClear(lib, s, run, i) else OvertakenBySet(lib, s, run, i))
  {
    var b := StateAt(lib, s, run, i);
    SplitRun(lib, s, run, i);
    assert run[i..][0] == run[i] && run[i..][1..] == run[i + 1..];
    var t := After(lib, b, run[i]);
    SwitchStep(lib, b, run[i]);
    hide After, At, Switches, NoSwitch;
    OnlyWrites(lib, t, run[i + 1..]);
    hide Runs, End, StateAt, LastWriter;
    var w := LastWriter(run[i + 1..]).value;
    if w != run[i].h {
      assert Overtaking(lib, s, run, i, w);
    }
  }

  lemma {:induction false} LastSwitchExists(run: seq<Step>) returns (i: nat)
    requires !NoSwitch(run)
    ensures LastSwitch(run, i)
  {
    hide Switches;
    if NoSwitch(run[1..]) {
      i := 0;
      assert forall j :: 1 <= j < |run| ==> run[j] == run[1..][j - 1];
    } else {
      i := LastSwitchExists(run[1..]);
      assert run[1..][i + 1..] == run[i + 2..];
      i := i + 1;
    }
  }

  /** A run without a switch leaves the cells as they were in the beginning. */
  lemma NeverSwitched(lib: Libraries, chip: Chip, now: int, run: seq<Step>)
    requires Runs(lib, Start(chip, now), run) && NoSwitch(run)
    ensures var e := End(lib, Start(chip, now), run); e.cells.panicUntil == 0 && e.cells.panicReason == "" && e.now >= now
  {
    OnlyWrites(lib, Start(chip, now), run);
  }

  // ---------- When a reason is left, and when it is missing ----------

  /** The last call to switch sets break-glass, and it has expired without being cleared. */
  ghost predicate ExpiredUncleared(lib: Libraries, s: Proxy, run: seq<Step>, i: nat)
    requires Runs(lib, s, run)
  {
    LastSwitch(run, i) && Expired(lib, s, run, i) && !OvertakenByClear(lib, s, run, i)
  }

  /** The last call to switch clears break-glass while another is about to write a reason, which it does last. */
  ghost predicate ClearOvertaken(lib: Libraries, s: Proxy, run: seq<Step>, i: nat)
    requires Runs(lib, s, run)
  {
    LastSwitch(run, i) && run[i].PanicOff? && OvertakenBySet(lib, s, run, i) && End(lib, s, run).now > 0
  }

  /**
   After every run, with no call under way, break-glass is off with a reason exactly if it has expired
   without being cleared, or the call that cleared it switched between the two writes of one that sets
   it and wrote its empty reason first.
   */
  lemma ReasonLeftIff(lib: Libraries, chip: Chip, now: int, run: seq<Step>)
    requires Runs(lib, Start(chip, now), run) && End(lib, Start(chip, now), run).reasons == map[]
    ensures
      var s := Start(chip, now);
      ReasonLeft(End(lib, s, run)) <==>
        exists i: nat :: ExpiredUncleared(lib, s, run, i) || ClearOvertaken(lib, s, run, i)
  {
    var s := Start(chip, now);
    if NoSwitch(run) {
      NeverSwitched(lib, chip, now, run);
      hide Runs, End, Start, Overtaking, Switches;
      assert forall i: nat :: !LastSwitch(run, i);
    } else {
      var i := LastSwitchExists(run);
      LastSwitchDecides(lib, s, run, i);
      hide Runs, End, StateAt, Start, NoSwitch, OvertakenByClear, OvertakenBySet;
      forall j | LastSwitch(run, j) ensures j == i {
        OneLastSwitch(run, i, j);
      }
      assert ReasonLeft(End(lib, s, run)) <==> ExpiredUncleared(lib, s, run, i) || ClearOvertaken(lib, s, run, i);
    }
  }

  lemma OneLastSwitch(run: seq<Step>, i: nat, j: nat)
    requires LastSwitch(run, i) && LastSwitch(run, j)
    ensures i == j
  {
    hide Switches;
    assert forall k :: i < k < |run| ==> run[k] == run[i + 1..][k - i - 1];
    assert forall k :: j < k < |run| ==> run[k] == run[j + 1..][k - j - 1];
  }

  /**
   It is on without a reason exactly if the call that set it switched between the two writes of one
   that clears it, was overtaken by its empty reason, and has not expired.
   */
  lemma UnexplainedIff(lib: Libraries, chip: Chip, now: int, run: seq<Step>)
    requires now > 0 && Runs(lib, Start(chip, now), run) && End(lib, Start(chip, now), run).reasons == map[]
    ensures
      var s := Start(chip, now);
      Unexplained(End(lib, s, run)) <==>
        exists i: nat ::
          LastSwitch(run, i) && run[i].PanicOn? && OvertakenByClear(lib, s, run, i) && !Expired(lib, s, run, i)
  {
    var s := Start(chip, now);
    TimePasses(lib, s, run);
    if NoSwitch(run) {
      NeverSwitched(lib, chip, now, run);
      hide Runs, End, Start, Overtaking, Switches;
      assert forall i: nat :: !LastSwitch(run, i);
    } else {
      var i := LastSwitchExists(run);
      LastSwitchDecides(lib, s, run, i);
      hide Runs, End, StateAt, NoSwitch, OvertakenByClear, OvertakenBySet, Switches;
      forall j | LastSwitch(run, j) ensures j == i {
        OneLastSwitch(run, i, j);
      }
    }
  }

  lemma {:induction false} TimePasses(lib: Libraries, s: Proxy, run: seq<Step>)
    requires Runs(lib, s, run)
    ensures End(lib, s, run).now >= s.now
    decreases |run|
  {
    if run != [] {
      OneStepLater(lib, s, run[0]);
      hide At, After;
      TimePasses(lib, After(lib, s, run[0]), run[1..]);
    }
  }

  lemma OneStepLater(lib: Libraries, s: Proxy, a: Step)
    requires At(s, a)
    ensures After(lib, s, a).now >= s.now
  {
    hide DecisionOn, LoadAndVerify, Blank;
  }

  // ---------- Calls one at a time ----------

  /** No call switches while another is between its two writes. */
  predicate SwitchesOneAtATime(lib: Libraries, s: Proxy, run: seq<Step>)
    requires Runs(lib, s, run)
    decreases |run|
  {
    run == [] || ((Switches(run[0]) ==> s.reasons == map[]) && SwitchesOneAtATime(lib, After(lib, s, run[0]), run[1..]))
  }

  lemma {:induction false} NoneUnderWay(lib: Libraries, s: Proxy, run: seq<Step>, i: nat)
    requires Runs(lib, s, run) && SwitchesOneAtATime(lib, s, run) && i < |run| && Switches(run[i])
    ensures StateAt(lib, s, run, i).reasons == map[]
    decreases i
  {
    if i > 0 {
      assert run[1..][i - 1] == run[i];
      hide At, After, Switches;
      NoneUnderWay(lib, After(lib, s, run[0]), run[1..], i - 1);
    }
  }

  /** Then a reason is left exactly by expiry, and none is ever missing. */
  lemma LeftOnlyByExpiry(lib: Libraries, chip: Chip, now: int, run: seq<Step>)
    requires now > 0 && Runs(lib, Start(chip, now), run) && SwitchesOneAtATime(lib, Start(chip, now), run)
    requires End(lib, Start(chip, now), run).reasons == map[]
    ensures
      var s := Start(chip, now);
      && (ReasonLeft(End(lib, s, run)) <==> exists i: nat :: LastSwitch(run, i) && Expired(lib, s, run, i))
      && !Unexplained(End(lib, s, run))
  {
    var s := Start(chip, now);
    ReasonLeftIff(lib, chip, now, run);
    UnexplainedIff(lib, chip, now, run);
    forall i | LastSwitch(run, i) ensures !OvertakenByClear(lib, s, run, i) && !OvertakenBySet(lib, s, run, i) {
      NoneUnderWay(lib, s, run, i);
    }
    hide Runs, End, StateAt, Start, LastSwitch, OvertakenByClear, OvertakenBySet, ReasonLeft, Unexplained,
      SwitchesOneAtATime;
    if i :| LastSwitch(run, i) && Expired(lib, s, run, i) {
      assert ExpiredUncleared(lib, s, run, i);
    }
  }

  /** A single call that sets break-glass leaves its reason behind when it expires. */
  lemma ReasonOutlivesExpiry(lib: Libraries, chip: Chip, now: int, ttl: int, reason: string, seconds: nat)
    requires 0 < ttl < seconds && !Blank(reason)
    ensures
      var s, run := Start(chip, now), [PanicOn(0, ttl, reason), WriteReason(0), Tick(seconds)];
      && Runs(lib, s, run) && SwitchesOneAtATime(lib, s, run) && End(lib, s, run).reasons == map[]
      && Off(End(lib, s, run)) && End(lib, s, run).cells.panicReason == reason
  {
    var s := Start(chip, now);
    var a, b, c := PanicOn(0, ttl, reason), WriteReason(0), Tick(seconds);
    var s1 := After(lib, s, a);
    var s2 := After(lib, s1, b);
    var s3 := After(lib, s2, c);
    assert s3.reasons == map[] && Off(s3) && s3.cells.panicReason == reason;
    assert [a, b, c] == [a] + [b, c] && [b, c] == [b] + [c] && [c] == [c] + [];
    assert Switches(a) && !Switches(b) && !Switches(c);
    NoStep(lib, s3);
    hide At, After, Blank, Off, Start, Switches;
    FirstStep(lib, s2, c, []);
    FirstStep(lib, s1, b, [c]);
    FirstStep(lib, s, a, [b, c]);
    assert [a, b, c][1..] == [b, c] && [b, c][1..] == [c] && [c][1..] == [];
    assert SwitchesOneAtATime(lib, s3, []);
    assert SwitchesOneAtATime(lib, s2, [c]);
    assert SwitchesOneAtATime(lib, s1, [b, c]);
  }

  // ---------- Clearing while a call is under way ----------

  /** The calls under way write their reasons, in some order, and a reason is left. */
  ghost predicate SettlesLeft(lib: Libraries, s: Proxy, run: seq<Step>)
  {
    && Runs(lib, s, run) && (forall i :: 0 <= i < |run| ==> run[i].WriteReason?)
    && End(lib, s, run).reasons == map[] && ReasonLeft(End(lib, s, run))
  }

  /** All calls under way write their reasons, a given one last. */
  lemma {:induction false} WritesLast(lib: Libraries, s: Proxy, h: nat) returns (run: seq<Step>)
    requires h in s.reasons
    ensures Runs(lib, s, run) && forall i :: 0 <= i < |run| ==> run[i].WriteReason?
    ensures var e := End(lib, s, run);
      && e.reasons == map[] && e.now == s.now
      && e.cells.panicUntil == s.cells.panicUntil && e.cells.panicReason == s.reasons[h]
    decreases |s.reasons|
  {
    if k :| k in s.reasons && k != h {
      var t := After(lib, s, WriteReason(k));
      assert t.reasons == s.reasons - {k} && s.reasons == t.reasons[k := s.reasons[k]];
      var rest := WritesLast(lib, t, h);
      run := [WriteReason(k)] + rest;
      FirstStep(lib, s, WriteReason(k), rest);
    } else {
      var t := After(lib, s, WriteReason(h));
      assert t.reasons == map[];
      run := [WriteReason(h)] + [];
      NoStep(lib, t);
      FirstStep(lib, s, WriteReason(h), []);
    }
  }

  /**
   A call that clears break-glass can leave a reason behind exactly if, when it switches, another call
   is about to write one.
   */
  lemma ClearCanLeaveReasonIff(lib: Libraries, s: Proxy, clear: nat)
    requires s.now > 0 && At(s, PanicOff(clear))
    ensures (exists run :: SettlesLeft(lib, After(lib, s, PanicOff(clear)), run)) <==>
            exists h :: h in s.reasons && s.reasons[h] != ""
  {
    var t := After(lib, s, PanicOff(clear));
    SwitchStep(lib, s, PanicOff(clear));
    if run :| SettlesLeft(lib, t, run) {
      OnlyWrites(lib, t, run);
    }
    if h :| h in s.reasons && s.reasons[h] != "" {
      var run := WritesLast(lib, t, h);
      assert t.reasons[h] == s.reasons[h];
      assert SettlesLeft(lib, t, run);
    }
  }

  /** From the start, setting and clearing break-glass with overlapping writes leaves it off with the reason. */
  lemma ReasonLeftBehind(lib: Libraries, chip: Chip, now: int, ttl: int, reason: string)
    requires now > 0 && ttl > 0 && !Blank(reason)
    ensures
      var s, run := Start(chip, now), [PanicOn(0, ttl, reason), PanicOff(1), WriteReason(1), WriteReason(0)];
      && Runs(lib, s, run) && End(lib, s, run).reasons == map[]
      && Off(End(lib, s, run)) && End(lib, s, run).cells.panicUntil == 0 && End(lib, s, run).cells.panicReason == reason
  {
    var s := Start(chip, now);
    var s1 := After(lib, s, PanicOn(0, ttl, reason));
    var s2 := After(lib, s1, PanicOff(1));
    var s3 := After(lib, s2, WriteReason(1));
    var s4 := After(lib, s3, WriteReason(0));
    assert s4.reasons == map[];
    hide Blank, Runs, End, At, After, Start;
    FourSteps(lib, s, PanicOn(0, ttl, reason), PanicOff(1), WriteReason(1), WriteReason(0));
  }

  lemma FourSteps(lib: Libraries, s: Proxy, a: Step, b: Step, c: Step, d: Step)
    requires At(s, a) && At(After(lib, s, a), b) && At(After(lib, After(lib, s, a), b), c)
    requires At(After(lib, After(lib, After(lib, s, a), b), c), d)
    ensures Runs(lib, s, [a, b, c, d])
    ensures End(lib, s, [a, b, c, d]) == After(lib, After(lib, After(lib, After(lib, s, a), b), c), d)
  {
    hide At, After;
    var s1 := After(lib, s, a);
    var s2 := After(lib, s1, b);
    var s3 := After(lib, s2, c);
    assert [a, b, c, d] == [a] + [b, c, d] && [b, c, d] == [b] + [c, d] && [c, d] == [c] + [d] && [d] == [d] + [];
    hide Runs, End;
    NoStep(lib, After(lib, s3, d));
    FirstStep(lib, s3, d, []);
    FirstStep(lib, s2, c, [d]);
    FirstStep(lib, s1, b, [c, d]);
    FirstStep(lib, s, a, [b, c, d]);
  }
}

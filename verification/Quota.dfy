/**
 The quota durable object: per meter a fixed window of tokens, a daily cap and idempotency keys.
 Storage holds copies: what a call changes on the state it loaded is kept only if it saves.
 */
module Quota {

  import opened Options

  datatype BucketConfig = BucketConfig(ratePerMin: Option<int>, burst: Option<int>, dailyCap: Option<int>)

  datatype MinuteState = MinuteState(windowStart: int, tokens: int)

  /** The day key is the number of the UTC day, which the source's yyyymmdd string stands for. */
  datatype DayState = DayState(dayKey: int, used: int)

  datatype MeterState = MeterState(minute: Option<MinuteState>, day: Option<DayState>, idem: set<string>)

  datatype Request = Request(qty: Option<int>, opKey: Option<string>)

  datatype Response =
    | Accepted
    | Cached
    | Backpressure(retryAfterMs: int)
    | RateLimit

  /** An accepted request of a request-bound meter, with the window and day it was charged to. */
  datatype Charge = Charge(windowStart: int, day: int, qty: int, opKey: Option<string>)

  const NEW_METER := MeterState(None, None, {})

  /** Properties every JavaScript object inherits: looking one up in `idem` always finds something. */
  const INHERITED_NAMES: set<string> := {
    "constructor", "__defineGetter__", "__defineSetter__", "hasOwnProperty", "__lookupGetter__", "__lookupSetter__",
    "isPrototypeOf", "propertyIsEnumerable", "toString", "valueOf", "__proto__", "toLocaleString" }

  // ---------- The pieces of checkAndConsume ----------

  function Min(a: int, b: int): int { if a <= b then a else b }

  predicate Truthy(v: Option<int>) { v.Some? && v.value != 0 }

  predicate HasKey(opKey: Option<string>) { opKey.Some? && opKey.value != "" }

  predicate Seen(st: MeterState, opKey: Option<string>) {
    HasKey(opKey) && (opKey.value in st.idem || opKey.value in INHERITED_NAMES)
  }

  predicate RequestBound(cfg: BucketConfig) { cfg.ratePerMin.Some? || cfg.dailyCap.Some? }

  function NowSec(nowMs: int): int { nowMs / 1000 }

  function Day(nowMs: int): int { nowMs / 86400000 }

  function WindowStart(nowSec: int, window: int): int
    requires window > 0
  {
    nowSec / window * window
  }

  function Refill(minute: MinuteState, cfg: BucketConfig, nowSec: int, window: int): MinuteState
    requires window > 0
  {
    if !Truthy(cfg.ratePerMin) || !Truthy(cfg.burst) then minute
    else if minute.windowStart == 0 || minute.windowStart != WindowStart(nowSec, window) then
      MinuteState(WindowStart(nowSec, window), Min(cfg.ratePerMin.value, cfg.burst.value))
    else minute
  }

  function Max(a: int, b: int): int { if a >= b then a else b }

  function OrElse<T>(v: Option<T>, d: T): T { if v.Some? then v.value else d }

  function AddKey(idem: set<string>, opKey: Option<string>): set<string> {
    if HasKey(opKey) then idem + {opKey.value} else idem
  }

  /** The state to save (None when the call saves nothing) and the reply. */
  function Step(cfg: BucketConfig, window: int, st: MeterState, req: Request, nowMs: int): (Option<MeterState>, Response)
    requires window > 0
  {
    var qty, nowSec := OrElse(req.qty, 1), NowSec(nowMs);
    if Seen(st, req.opKey) then (None, Cached)
    else if !RequestBound(cfg) then (Some(st.(idem := AddKey(st.idem, req.opKey))), Accepted)
    else
      var minute := Refill(OrElse(st.minute, MinuteState(0, 0)), cfg, nowSec, window);
      if minute.tokens < qty then
        var start := if minute.windowStart != 0 then minute.windowStart else WindowStart(nowSec, window);
        (None, Backpressure(Max(0, (start + window - nowSec) * 1000)))
      else
        var day := if st.day.Some? && st.day.value.dayKey == Day(nowMs) then st.day.value else DayState(Day(nowMs), 0);
        if cfg.dailyCap.Some? && day.used + qty > cfg.dailyCap.value then (None, RateLimit)
        else (Some(MeterState(Some(minute.(tokens := minute.tokens - qty)), Some(day.(used := day.used + qty)),
                              AddKey(st.idem, req.opKey))), Accepted)
  }

  /** What an accepted request is charged to: the window and the day it arrives in. */
  function ChargeOf(window: int, req: Request, nowMs: int): Charge
    requires window > 0
  {
    Charge(WindowStart(NowSec(nowMs), window), Day(nowMs), OrElse(req.qty, 1), req.opKey)
  }

  // ---------- The durable object ----------

  function ConfigOf(limits: map<string, BucketConfig>, key: string): BucketConfig {
    if key in limits then limits[key] else BucketConfig(None, None, None)
  }

  function LoadFrom(storage: map<string, MeterState>, key: string): MeterState {
    if key in storage then storage[key] else NEW_METER
  }

  ghost function LogFrom(logs: map<string, seq<Charge>>, key: string): seq<Charge> {
    if key in logs then logs[key] else []
  }

  /** Storage and accepted-request logs of all meters, and the time of the last call. */
  ghost predicate SoundAt(limits: map<string, BucketConfig>, window: int, storage: map<string, MeterState>,
                          logs: map<string, seq<Charge>>, clock: int, key: string)
    requires window > 0
  {
    FullyConfigured(ConfigOf(limits, key)) ==>
      Refines(ConfigOf(limits, key), window, LoadFrom(storage, key), LogFrom(logs, key), clock)
  }

  function NextStorage(limits: map<string, BucketConfig>, window: int, storage: map<string, MeterState>,
                       key: string, req: Request, nowMs: int): map<string, MeterState>
    requires window > 0
  {
    match Step(ConfigOf(limits, key), window, LoadFrom(storage, key), req, nowMs).0
    case None => storage
    case Some(st) => storage[key := st]
  }

  ghost function NextLogs(limits: map<string, BucketConfig>, window: int, storage: map<string, MeterState>,
                          logs: map<string, seq<Charge>>, key: string, req: Request, nowMs: int): map<string, seq<Charge>>
    requires window > 0
  {
    var cfg, st := ConfigOf(limits, key), LoadFrom(storage, key);
    if RequestBound(cfg) && Step(cfg, window, st, req, nowMs).1 == Accepted
    then logs[key := LogFrom(logs, key) + [ChargeOf(window, req, nowMs)]]
    else logs
  }

  lemma NextOf(limits: map<string, BucketConfig>, window: int, storage: map<string, MeterState>,
               logs: map<string, seq<Charge>>, key: string, req: Request, nowMs: int)
    requires window > 0
    ensures var (next, r) := Step(ConfigOf(limits, key), window, LoadFrom(storage, key), req, nowMs);
      && NextStorage(limits, window, storage, key, req, nowMs) == (if next == None then storage else storage[key := next.value])
      && (r != Accepted || !RequestBound(ConfigOf(limits, key)) ==> NextLogs(limits, window, storage, logs, key, req, nowMs) == logs)
  {
    hide Step;
  }

  class QuotaDO {
    const window: int
    const limits: map<string, BucketConfig>
    var storage: map<string, MeterState>
    ghost var logs: map<string, seq<Charge>>
    ghost var clock: int

    constructor (window: int, limits: map<string, BucketConfig>)
      requires window > 0
      ensures this.window == window && this.limits == limits && storage == map[] && logs == map[]
      ensures forall key :: Sound(key)
    {
      this.window, this.limits, storage, logs, clock := window, limits, map[], map[], 0;
    }

    /** The stored counters of a fully configured meter agree with the log of accepted requests. */
    ghost predicate Sound(key: string)
      reads this
    {
      window > 0 && SoundAt(limits, window, storage, logs, clock, key)
    }

    /**
     checkAndConsume for one meter key. The state is a copy: minute and day are changed before the
     daily check, and nothing of that reaches storage unless the request is accepted.
     */
    method CheckAndConsume(key: string, req: Request, nowMs: int) returns (r: Response)
      requires window > 0
      modifies this
      ensures r == Step(ConfigOf(limits, key), window, old(LoadFrom(storage, key)), req, nowMs).1
      ensures storage == NextStorage(limits, window, old(storage), key, req, nowMs)
      ensures logs == NextLogs(limits, window, old(storage), old(logs), key, req, nowMs)
      ensures clock == nowMs
      ensures (r.Backpressure? || r.RateLimit? || r.Cached?) ==> storage == old(storage) && logs == old(logs)
      ensures old(clock) <= nowMs && NowSec(nowMs) >= window ==>
                forall other :: old(Sound(other)) ==> Sound(other)
    {
      var qty := OrElse(req.qty, 1);
      var cfg := ConfigOf(limits, key);
      var st := LoadFrom(storage, key);
      ghost var nextLogs := NextLogs(limits, window, storage, logs, key, req, nowMs);
      CallKeepsSound(limits, window, storage, logs, clock, key, req, nowMs);
      NextOf(limits, window, storage, logs, key, req, nowMs);
      hide SoundAt, Refill, WindowStart, Day, NowSec, Seen, AddKey, NextStorage, NextLogs, ConfigOf, LoadFrom;
      clock := nowMs;
      if Seen(st, req.opKey) {
        return Cached;
      }
      var nowSec := NowSec(nowMs);
      var dayKey := Day(nowMs);
      if RequestBound(cfg) {
        var minute := Refill(OrElse(st.minute, MinuteState(0, 0)), cfg, nowSec, window);
        if minute.tokens < qty {
          var start := if minute.windowStart != 0 then minute.windowStart else WindowStart(nowSec, window);
          return Backpressure(Max(0, (start + window - nowSec) * 1000));
        }
        minute := minute.(tokens := minute.tokens - qty);
        var day := if st.day.Some? && st.day.value.dayKey == dayKey then st.day.value else DayState(dayKey, 0);
        if cfg.dailyCap.Some? && day.used + qty > cfg.dailyCap.value {
          return RateLimit;
        }
        day := day.(used := day.used + qty);
        st := st.(minute := Some(minute));
        st := st.(day := Some(day));
        st := st.(idem := AddKey(st.idem, req.opKey));
        storage := storage[key := st];
        logs := nextLogs;
        return Accepted;
      }
      st := st.(idem := AddKey(st.idem, req.opKey));
      storage := storage[key := st];
      r := Accepted;
    }
  }

  /** One call keeps a fully configured meter's counters equal to its log. */
  lemma MeterKeepsSound(limits: map<string, BucketConfig>, window: int, storage: map<string, MeterState>,
                        logs: map<string, seq<Charge>>, clock: int, key: string, req: Request, nowMs: int, other: string)
    requires window > 0 && clock <= nowMs && NowSec(nowMs) >= window
    requires SoundAt(limits, window, storage, logs, clock, other)
    ensures SoundAt(limits, window, NextStorage(limits, window, storage, key, req, nowMs),
                    NextLogs(limits, window, storage, logs, key, req, nowMs), nowMs, other)
  {
    hide Refines, ChargeOf;
    var cfg, st, log := ConfigOf(limits, other), LoadFrom(storage, other), LogFrom(logs, other);
    if FullyConfigured(cfg) {
      RefinesLater(cfg, window, st, log, clock, nowMs);
      if other == key && Step(cfg, window, st, req, nowMs).1 == Accepted {
        AcceptRefines(cfg, window, st, log, clock, req, nowMs);
      }
    }
  }

  lemma CallKeepsSound(limits: map<string, BucketConfig>, window: int, storage: map<string, MeterState>,
                       logs: map<string, seq<Charge>>, clock: int, key: string, req: Request, nowMs: int)
    requires window > 0
    ensures clock <= nowMs && NowSec(nowMs) >= window ==>
      forall other :: SoundAt(limits, window, storage, logs, clock, other) ==>
        SoundAt(limits, window, NextStorage(limits, window, storage, key, req, nowMs),
                NextLogs(limits, window, storage, logs, key, req, nowMs), nowMs, other)
  {
    hide SoundAt, NextStorage, NextLogs;
    if clock <= nowMs && NowSec(nowMs) >= window {
      forall other | SoundAt(limits, window, storage, logs, clock, other)
        ensures SoundAt(limits, window, NextStorage(limits, window, storage, key, req, nowMs),
                        NextLogs(limits, window, storage, logs, key, req, nowMs), nowMs, other)
      {
        MeterKeepsSound(limits, window, storage, logs, clock, key, req, nowMs, other);
      }
    }
  }

  // ---------- The log the counters refine ----------

  predicate FullyConfigured(cfg: BucketConfig) { Truthy(cfg.ratePerMin) && Truthy(cfg.burst) }

  function Capacity(cfg: BucketConfig): int
    requires FullyConfigured(cfg)
  {
    Min(cfg.ratePerMin.value, cfg.burst.value)
  }

  /** Quantity accepted in the window. */
  ghost function WindowSum(log: seq<Charge>, w: int): int {
    if log == [] then 0 else WindowSum(log[..|log| - 1], w) + (if log[|log| - 1].windowStart == w then log[|log| - 1].qty else 0)
  }

  ghost function DaySum(log: seq<Charge>, d: int): int {
    if log == [] then 0 else DaySum(log[..|log| - 1], d) + (if log[|log| - 1].day == d then log[|log| - 1].qty else 0)
  }

  ghost predicate Refines(cfg: BucketConfig, window: int, st: MeterState, log: seq<Charge>, clock: int)
    requires window > 0 && FullyConfigured(cfg)
  {
    && (st.minute.None? ==> log == [])
    && (st.day.None? ==> log == [])
    && (st.minute.Some? ==> MinuteRefines(cfg, st.minute.value, log) && st.minute.value.windowStart <= WindowStart(NowSec(clock), window))
    && (st.day.Some? ==> DayRefines(st.day.value, log) && st.day.value.dayKey <= Day(clock))
    && (forall w :: WindowSum(log, w) <= Max(Capacity(cfg), 0))
    && (cfg.dailyCap.Some? ==> forall d :: DaySum(log, d) <= Max(cfg.dailyCap.value, 0))
    && KeysRefine(st.idem, log)
  }

  /** The tokens left are the capacity minus what the latest window accepted. */
  ghost predicate MinuteRefines(cfg: BucketConfig, m: MinuteState, log: seq<Charge>)
    requires FullyConfigured(cfg)
  {
    && m.windowStart > 0
    && m.tokens == Capacity(cfg) - WindowSum(log, m.windowStart)
    && forall i :: 0 <= i < |log| ==> log[i].windowStart <= m.windowStart
  }

  ghost predicate DayRefines(d: DayState, log: seq<Charge>) {
    && d.used == DaySum(log, d.dayKey)
    && forall i :: 0 <= i < |log| ==> log[i].day <= d.dayKey
  }

  /** The idempotency keys are those of the log, each charged once. */
  ghost predicate KeysRefine(idem: set<string>, log: seq<Charge>) {
    && (forall k :: k in idem <==> exists i :: 0 <= i < |log| && log[i].opKey == Some(k) && k != "")
    && (forall i, j :: 0 <= i < j < |log| && HasKey(log[i].opKey) ==> log[i].opKey != log[j].opKey)
  }

  lemma {:induction false} SumBeyond(log: seq<Charge>, w: int)
    ensures (forall i :: 0 <= i < |log| ==> log[i].windowStart < w) ==> WindowSum(log, w) == 0
    ensures (forall i :: 0 <= i < |log| ==> log[i].day < w) ==> DaySum(log, w) == 0
  {
    if log != [] {
      SumBeyond(log[..|log| - 1], w);
    }
  }

  lemma SumAppend(log: seq<Charge>, c: Charge)
    ensures forall w :: WindowSum(log + [c], w) == WindowSum(log, w) + (if c.windowStart == w then c.qty else 0)
    ensures forall d :: DaySum(log + [c], d) == DaySum(log, d) + (if c.day == d then c.qty else 0)
  {
    assert (log + [c])[..|log|] == log;
  }

  lemma WindowsMonotone(window: int, a: int, b: int)
    requires window > 0 && a <= b
    ensures WindowStart(NowSec(a), window) <= WindowStart(NowSec(b), window) && Day(a) <= Day(b)
  {
    var x, y := NowSec(a) / window, NowSec(b) / window;
    assert x <= y by { DivMonotone(NowSec(a), NowSec(b), window); }
    assert x * window <= y * window by { MulMonotone(x, y, window); }
  }

  lemma MulMonotone(x: int, y: int, k: int)
    requires x <= y && k > 0
    ensures x * k <= y * k
  {
  }

  lemma DivMonotone(a: int, b: int, k: int)
    requires k > 0 && a <= b
    ensures a / k <= b / k
  {
    MulGap(b / k, a / k, k);
    assert a == (a / k) * k + a % k && b == (b / k) * k + b % k;
  }

  lemma MulGap(x: int, y: int, k: int)
    requires k > 0
    ensures x < y ==> x * k + k <= y * k
  {
    assert x * k + k == (x + 1) * k;
  }

  lemma RefinesLater(cfg: BucketConfig, window: int, st: MeterState, log: seq<Charge>, before: int, now: int)
    requires window > 0 && FullyConfigured(cfg) && before <= now && Refines(cfg, window, st, log, before)
    ensures Refines(cfg, window, st, log, now)
  {
    WindowsMonotone(window, before, now);
  }

  /** Where now lies inside its window. */
  lemma WindowContains(nowSec: int, window: int)
    requires window > 0
    ensures WindowStart(nowSec, window) <= nowSec < WindowStart(nowSec, window) + window
    ensures nowSec >= window ==> WindowStart(nowSec, window) >= window
  {
    var q := nowSec / window;
    assert nowSec == q * window + nowSec % window;
    if nowSec >= window {
      assert q >= 1 by { DivMonotone(window, nowSec, window); assert window / window == 1; }
      MulMonotone(1, q, window);
    }
  }

  /** An accepted request keeps the counters equal to the log and the sums within their caps. */
  lemma AcceptRefines(cfg: BucketConfig, window: int, st: MeterState, log: seq<Charge>, before: int, req: Request, now: int)
    requires window > 0 && FullyConfigured(cfg) && Refines(cfg, window, st, log, before)
    requires before <= now && NowSec(now) >= window
    requires Step(cfg, window, st, req, now).1 == Accepted
    ensures Refines(cfg, window, Step(cfg, window, st, req, now).0.value, log + [ChargeOf(window, req, now)], now)
  {
    var c := ChargeOf(window, req, now);
    AcceptedMinute(cfg, window, st, log, before, req, now);
    AcceptedDay(cfg, window, st, log, before, req, now);
    AcceptedKey(cfg, window, st, req, now);
    SumAppend(log, c);
    hide WindowStart, Day, NowSec, WindowSum, DaySum, MinuteRefines, DayRefines, KeysRefine, Step, Capacity;
    KeysAppend(st.idem, log, c);
  }

  lemma AcceptedMinute(cfg: BucketConfig, window: int, st: MeterState, log: seq<Charge>, before: int, req: Request, now: int)
    requires window > 0 && FullyConfigured(cfg) && Refines(cfg, window, st, log, before)
    requires before <= now && NowSec(now) >= window
    requires Step(cfg, window, st, req, now).1 == Accepted
    ensures
      var all, minute := log + [ChargeOf(window, req, now)], Step(cfg, window, st, req, now).0.value.minute;
      && minute.Some? && minute.value.windowStart == WindowStart(NowSec(now), window)
      && MinuteRefines(cfg, minute.value, all) && WindowSum(all, minute.value.windowStart) <= Capacity(cfg)
  {
    WindowContains(NowSec(now), window);
    WindowsMonotone(window, before, now);
    SumAppend(log, ChargeOf(window, req, now));
    SumBeyond(log, WindowStart(NowSec(now), window));
    hide WindowStart, Day, NowSec, WindowSum, DaySum, DayRefines, KeysRefine;
  }

  lemma AcceptedDay(cfg: BucketConfig, window: int, st: MeterState, log: seq<Charge>, before: int, req: Request, now: int)
    requires window > 0 && FullyConfigured(cfg) && Refines(cfg, window, st, log, before) && before <= now
    requires Step(cfg, window, st, req, now).1 == Accepted
    ensures
      var all, day := log + [ChargeOf(window, req, now)], Step(cfg, window, st, req, now).0.value.day;
      && day.Some? && day.value.dayKey == Day(now) && DayRefines(day.value, all)
      && (cfg.dailyCap.Some? ==> DaySum(all, Day(now)) <= cfg.dailyCap.value)
  {
    WindowsMonotone(window, before, now);
    SumAppend(log, ChargeOf(window, req, now));
    SumBeyond(log, Day(now));
    hide WindowStart, Day, NowSec, WindowSum, DaySum, MinuteRefines, KeysRefine, Capacity, Refill;
  }

  lemma AcceptedKey(cfg: BucketConfig, window: int, st: MeterState, req: Request, now: int)
    requires window > 0 && Step(cfg, window, st, req, now).1 == Accepted
    ensures Step(cfg, window, st, req, now).0.value.idem == AddKey(st.idem, req.opKey)
    ensures HasKey(req.opKey) ==> req.opKey.value !in st.idem
  {
    hide Refill, WindowStart, Day, NowSec;
  }

  lemma KeysAppend(idem: set<string>, log: seq<Charge>, c: Charge)
    requires KeysRefine(idem, log) && (HasKey(c.opKey) ==> c.opKey.value !in idem)
    ensures KeysRefine(AddKey(idem, c.opKey), log + [c])
  {
    var all, keys := log + [c], AddKey(idem, c.opKey);
    forall k | k in keys ensures exists i :: 0 <= i < |all| && all[i].opKey == Some(k) && k != "" {
      if k in idem {
        var i :| 0 <= i < |log| && log[i].opKey == Some(k) && k != "";
        assert all[i] == log[i];
      } else {
        assert all[|log|].opKey == Some(k);
      }
    }
    forall i | 0 <= i < |log| && HasKey(log[i].opKey) ensures log[i].opKey != c.opKey {
      assert log[i].opKey == Some(log[i].opKey.value);
      assert log[i].opKey.value in idem;
    }
  }

  // ---------- Whole runs ----------

  datatype Call = Call(key: string, req: Request, nowMs: int)

  /** Storage and logs after a run of calls on a new object. */
  ghost function Run(limits: map<string, BucketConfig>, window: int, calls: seq<Call>): (map<string, MeterState>, map<string, seq<Charge>>)
    requires window > 0
  {
    if calls == [] then (map[], map[])
    else
      var c, before := calls[|calls| - 1], Run(limits, window, calls[..|calls| - 1]);
      (NextStorage(limits, window, before.0, c.key, c.req, c.nowMs), NextLogs(limits, window, before.0, before.1, c.key, c.req, c.nowMs))
  }

  ghost predicate Orderly(window: int, calls: seq<Call>) {
    && (forall i :: 0 <= i < |calls| ==> calls[i].nowMs >= 0 && NowSec(calls[i].nowMs) >= window)
    && (forall i, j :: 0 <= i < j < |calls| ==> calls[i].nowMs <= calls[j].nowMs)
  }

  function EndOf(calls: seq<Call>): int {
    if calls == [] then 0 else calls[|calls| - 1].nowMs
  }

  lemma {:induction false} RunSoundAt(limits: map<string, BucketConfig>, window: int, calls: seq<Call>, key: string)
    requires window > 0 && Orderly(window, calls)
    ensures var run := Run(limits, window, calls); SoundAt(limits, window, run.0, run.1, EndOf(calls), key)
  {
    if calls != [] {
      var init, c := calls[..|calls| - 1], calls[|calls| - 1];
      RunSoundAt(limits, window, init, key);
      hide SoundAt, NextStorage, NextLogs;
      var before := Run(limits, window, init);
      assert EndOf(init) <= c.nowMs by {
        if init != [] {
          assert calls[|calls| - 2].nowMs <= c.nowMs;
        }
      }
      MeterKeepsSound(limits, window, before.0, before.1, EndOf(init), c.key, c.req, c.nowMs, key);
    }
  }

  /**
   In every run under a clock that does not go back, whatever the quantities, and for every meter
   with rate and burst: no window accepts more than min(rate, burst) and no day more than the daily
   cap, negative quantities counting as such; the tokens and usage stored are what is left of and
   used from them; and no key is charged twice.
   */
  lemma RunWithinLimits(limits: map<string, BucketConfig>, window: int, calls: seq<Call>, key: string)
    requires window > 0 && Orderly(window, calls) && FullyConfigured(ConfigOf(limits, key))
    ensures var run := Run(limits, window, calls);
      var cfg, st, log := ConfigOf(limits, key), LoadFrom(run.0, key), LogFrom(run.1, key);
      && (forall w :: WindowSum(log, w) <= Max(cfg.ratePerMin.value, 0) && WindowSum(log, w) <= Max(cfg.burst.value, 0))
      && (cfg.dailyCap.Some? ==> forall d :: DaySum(log, d) <= Max(cfg.dailyCap.value, 0))
      && (st.minute.Some? ==>
           var n := st.minute.value.tokens + WindowSum(log, st.minute.value.windowStart);
           n <= cfg.ratePerMin.value && n <= cfg.burst.value && (n == cfg.ratePerMin.value || n == cfg.burst.value))
      && (st.day.Some? ==> st.day.value.used == DaySum(log, st.day.value.dayKey))
      && (forall i, j :: 0 <= i < j < |log| && HasKey(log[i].opKey) ==> log[i].opKey != log[j].opKey)
  {
    RunSoundAt(limits, window, calls, key);
  }

  // ---------- Waiting ----------

  /**
   A BACKPRESSURE reply waits for a time in (0, window] that ends exactly at the next window start;
   from then on a lone retry for no more than min(rate, burst) is not refused for tokens.
   */
  lemma BackpressureWait(cfg: BucketConfig, window: int, st: MeterState, req: Request, now: int, retry: Request, later: int)
    requires window > 0 && FullyConfigured(cfg) && NowSec(now) >= window
    requires st.minute.Some? ==> st.minute.value.windowStart <= WindowStart(NowSec(now), window)
    requires Step(cfg, window, st, req, now).1.Backpressure?
    ensures var ms, next := Step(cfg, window, st, req, now).1.retryAfterMs, WindowStart(NowSec(now), window) + window;
      && 0 < ms <= window * 1000 && NowSec(now + ms) == next == WindowStart(next, window)
      && (later >= now + ms && OrElse(retry.qty, 1) <= cfg.ratePerMin.value && OrElse(retry.qty, 1) <= cfg.burst.value ==>
           !Step(cfg, window, st, retry, later).1.Backpressure?)
  {
    var cur, ms := WindowStart(NowSec(now), window), Step(cfg, window, st, req, now).1.retryAfterMs;
    WindowContains(NowSec(now), window);
    NextWindow(NowSec(now) / window, window);
    assert ms == (cur + window - NowSec(now)) * 1000;
    assert NowSec(now + ms) == cur + window;
    if later >= now + ms {
      WindowsMonotone(window, now + ms, later);
    }
  }

  lemma NextWindow(q: int, window: int)
    requires window > 0
    ensures WindowStart(q * window + window, window) == q * window + window
  {
    var n := (q + 1) * window;
    assert n == q * window + window;
    MulGap(n / window, q + 1, window);
    MulGap(q + 1, n / window, window);
    assert n == (n / window) * window + n % window;
  }

  // ---------- Units ----------

  /** A day of the day key is 24 hours, and a second 1000 milliseconds, counted from the epoch. */
  lemma CalendarUnits(day: int, ms: nat, second: int, rest: nat)
    requires ms < 24 * 60 * 60 * 1000 && rest < 1000
    ensures Day(day * (24 * 60 * 60 * 1000) + ms) == day && NowSec(second * 1000 + rest) == second
  {
  }

  /** A window start is the last multiple of the window that is not later. */
  lemma WindowStartIs(n: int, offset: nat, window: int)
    requires offset < window
    ensures WindowStart(n * window + offset, window) == n * window
  {
    QuotientIs(n, offset, window);
  }

  lemma QuotientIs(n: int, offset: nat, window: int)
    requires offset < window
    ensures (n * window + offset) / window == n
  {
    var q, r := (n * window + offset) / window, (n * window + offset) % window;
    assert n * window + offset == q * window + r;
    if q < n {
      MulGap(q, n, window);
    }
    if n < q {
      MulGap(n, q, window);
    }
  }

  /** A reply other than acceptance saves nothing, whatever was refilled or taken from the loaded copy. */
  lemma OnlyAcceptanceSaves(cfg: BucketConfig, window: int, st: MeterState, req: Request, now: int)
    requires window > 0
    ensures Step(cfg, window, st, req, now).0 == None <==> Step(cfg, window, st, req, now).1 != Accepted
  {
    hide Refill, WindowStart, Day, NowSec;
  }

  /** A request without a quantity is one for a single unit. */
  lemma DefaultQuantity(cfg: BucketConfig, window: int, st: MeterState, opKey: Option<string>, now: int)
    requires window > 0
    ensures Step(cfg, window, st, Request(None, opKey), now) == Step(cfg, window, st, Request(Some(1), opKey), now)
    ensures ChargeOf(window, Request(None, opKey), now).qty == 1
  {
    hide Refill, WindowStart, Day, NowSec;
  }

  /** On a new meter a key is answered from the cache, without a charge, exactly if every JavaScript object has a property of that name. */
  lemma InheritedNamesAreCached(cfg: BucketConfig, window: int, qty: Option<int>, key: string, now: int)
    requires window > 0
    ensures Step(cfg, window, NEW_METER, Request(qty, Some(key)), now) == (None, Cached) <==>
      key in {"constructor", "__defineGetter__", "__defineSetter__", "hasOwnProperty", "__lookupGetter__", "__lookupSetter__",
              "isPrototypeOf", "propertyIsEnumerable", "toString", "valueOf", "__proto__", "toLocaleString"}
  {
    hide Refill, WindowStart, Day, NowSec;
  }

  // ---------- Which meters ever accept ----------

  /**
   On a request-bound meter a first request is accepted exactly when the quantity fits both limits,
   where a meter whose rate or burst is missing or 0 has no capacity at all.
   */
  lemma FirstRequestAcceptedIff(cfg: BucketConfig, window: int, req: Request, now: int)
    requires window > 0 && RequestBound(cfg) && NowSec(now) >= window
    requires !Seen(NEW_METER, req.opKey)
    ensures Step(cfg, window, NEW_METER, req, now).1 == Accepted <==>
      && (if FullyConfigured(cfg) then OrElse(req.qty, 1) <= cfg.ratePerMin.value && OrElse(req.qty, 1) <= cfg.burst.value
          else OrElse(req.qty, 1) <= 0)
      && (cfg.dailyCap.Some? ==> OrElse(req.qty, 1) <= cfg.dailyCap.value)
  {
    WindowContains(NowSec(now), window);
    hide WindowStart;
  }

  /**
   Before the end of the first window after the epoch the stored window start is 0, which counts as
   missing: every call finds a full bucket, so the results over runs need later times.
   */
  lemma FirstWindowForgets(cfg: BucketConfig, window: int, st: MeterState, req: Request, now: int)
    requires window > 0 && FullyConfigured(cfg) && cfg.dailyCap.None? && 0 <= NowSec(now) < window && !Seen(st, req.opKey)
    ensures Step(cfg, window, st, req, now).1 == Accepted <==>
      OrElse(req.qty, 1) <= cfg.ratePerMin.value && OrElse(req.qty, 1) <= cfg.burst.value
  {
    assert WindowStart(NowSec(now), window) == 0;
  }

  /** A retry under the key of an accepted request is answered from the cache and charged nothing, whatever has changed meanwhile. */
  lemma RetryIsCached(cfg: BucketConfig, window: int, st: MeterState, req: Request, now: int,
                      later: BucketConfig, again: Request, moment: int)
    requires window > 0 && HasKey(req.opKey) && again.opKey == req.opKey
    requires Step(cfg, window, st, req, now).1 == Accepted
    ensures Step(later, window, Step(cfg, window, st, req, now).0.value, again, moment) == (None, Cached)
  {
    hide Refill, WindowStart, Day, NowSec;
  }

  /** Without rate and burst a request-bound meter stays new and answers nothing but BACKPRESSURE. */
  lemma {:induction false} UnconfiguredNeverAccepts(limits: map<string, BucketConfig>, window: int, calls: seq<Call>, key: string)
    requires window > 0 && RequestBound(ConfigOf(limits, key)) && !FullyConfigured(ConfigOf(limits, key))
    requires forall i :: 0 <= i < |calls| ==> OrElse(calls[i].req.qty, 1) >= 1
    ensures var run := Run(limits, window, calls); LoadFrom(run.0, key) == NEW_METER && LogFrom(run.1, key) == []
    ensures forall req: Request, now :: OrElse(req.qty, 1) >= 1 && !Seen(NEW_METER, req.opKey) ==>
      Step(ConfigOf(limits, key), window, NEW_METER, req, now).1.Backpressure?
  {
    if calls != [] {
      UnconfiguredNeverAccepts(limits, window, calls[..|calls| - 1], key);
      assert OrElse(calls[|calls| - 1].req.qty, 1) >= 1;
    }
  }

  // ---------- Refunds ----------

  /** What the window's accepted requests took, and what those with a negative quantity gave back. */
  ghost function Taken(log: seq<Charge>, w: int): int {
    if log == [] then 0
    else Taken(log[..|log| - 1], w) + (if log[|log| - 1].windowStart == w then Max(log[|log| - 1].qty, 0) else 0)
  }

  ghost function GivenBack(log: seq<Charge>, w: int): int {
    if log == [] then 0
    else GivenBack(log[..|log| - 1], w) + (if log[|log| - 1].windowStart == w then Max(-log[|log| - 1].qty, 0) else 0)
  }

  lemma {:induction false} TakenMinusGivenBack(log: seq<Charge>, w: int)
    ensures WindowSum(log, w) == Taken(log, w) - GivenBack(log, w)
    ensures GivenBack(log, w) >= 0
    ensures GivenBack(log, w) == 0 <==> forall i :: 0 <= i < |log| && log[i].windowStart == w ==> log[i].qty >= 0
  {
    if log != [] {
      var init, last := log[..|log| - 1], log[|log| - 1];
      TakenMinusGivenBack(init, w);
      assert forall i :: 0 <= i < |init| ==> init[i] == log[i];
      assert GivenBack(log, w) == 0 <==> GivenBack(init, w) == 0 && (last.windowStart == w ==> last.qty >= 0);
    }
  }

  /** The tokens a request finds in its window. */
  function TokensFound(cfg: BucketConfig, window: int, st: MeterState, now: int): int
    requires window > 0
  {
    Refill(OrElse(st.minute, MinuteState(0, 0)), cfg, NowSec(now), window).tokens
  }

  /** The request asks for more than the tokens it finds would be without what was given back in its window. */
  ghost predicate AsksBeyond(cfg: BucketConfig, window: int, st: MeterState, log: seq<Charge>, req: Request, now: int)
    requires window > 0
  {
    var q := OrElse(req.qty, 1);
    q > 0 && q > TokensFound(cfg, window, st, now) - GivenBack(log, WindowStart(NowSec(now), window))
  }

  lemma TokensAreLeft(cfg: BucketConfig, window: int, st: MeterState, log: seq<Charge>, before: int, now: int)
    requires window > 0 && FullyConfigured(cfg) && Refines(cfg, window, st, log, before)
    requires before <= now && NowSec(now) >= window
    ensures TokensFound(cfg, window, st, now) == Capacity(cfg) - WindowSum(log, WindowStart(NowSec(now), window))
  {
    WindowContains(NowSec(now), window);
    WindowsMonotone(window, before, now);
    SumBeyond(log, WindowStart(NowSec(now), window));
    hide WindowStart, Day, NowSec, WindowSum, DaySum, DayRefines, KeysRefine;
  }

  lemma {:induction false} TakenNotNegative(log: seq<Charge>, w: int)
    ensures Taken(log, w) >= 0
  {
    if log != [] {
      TakenNotNegative(log[..|log| - 1], w);
    }
  }

  /** An accepted request takes its window beyond the capacity exactly if it asks beyond it. */
  lemma AcceptedBeyondIff(cfg: BucketConfig, window: int, st: MeterState, log: seq<Charge>, before: int, req: Request, now: int)
    requires window > 0 && FullyConfigured(cfg) && Refines(cfg, window, st, log, before)
    requires before <= now && NowSec(now) >= window
    requires Step(cfg, window, st, req, now).1 == Accepted
    ensures
      var w, limit := WindowStart(NowSec(now), window), Max(Capacity(cfg), 0);
      Taken(log + [ChargeOf(window, req, now)], w) > limit <==> Taken(log, w) > limit || AsksBeyond(cfg, window, st, log, req, now)
  {
    var w := WindowStart(NowSec(now), window);
    TokensAreLeft(cfg, window, st, log, before, now);
    LastSummed(log, ChargeOf(window, req, now), w);
    TakenMinusGivenBack(log, w);
    TakenNotNegative(log, w);
    hide Step, Refines, WindowStart, NowSec, Taken, GivenBack, WindowSum, TokensFound, Capacity;
  }

  /** In the run's i-th call the meter accepts, in this window, a request that asks beyond the capacity. */
  ghost predicate BeyondAt(limits: map<string, BucketConfig>, window: int, calls: seq<Call>, key: string, w: int, i: int)
    requires window > 0
  {
    && 0 <= i < |calls| && calls[i].key == key && WindowStart(NowSec(calls[i].nowMs), window) == w
    && var before, req, now, cfg := Run(limits, window, calls[..i]), calls[i].req, calls[i].nowMs, ConfigOf(limits, key);
      && Step(cfg, window, LoadFrom(before.0, key), req, now).1 == Accepted
      && AsksBeyond(cfg, window, LoadFrom(before.0, key), LogFrom(before.1, key), req, now)
  }

  lemma EarlierBeyond(limits: map<string, BucketConfig>, window: int, calls: seq<Call>, key: string, w: int, i: int)
    requires window > 0 && calls != [] && i < |calls| - 1
    ensures BeyondAt(limits, window, calls, key, w, i) <==> BeyondAt(limits, window, calls[..|calls| - 1], key, w, i)
  {
    hide Run, Step, AsksBeyond, WindowStart, NowSec;
    if 0 <= i {
      assert calls[..|calls| - 1][..i] == calls[..i];
    }
  }

  /**
   The quantity is not checked, and a negative one gives tokens back. In every run, a window takes
   more than its capacity exactly if some request is accepted in it that asks for more than the tokens
   it finds less what was given back before; it never does if nothing is given back.
   */
  lemma {:induction false} TakenBeyondCapacityIff(limits: map<string, BucketConfig>, window: int, calls: seq<Call>, key: string, w: int)
    requires window > 0 && Orderly(window, calls) && FullyConfigured(ConfigOf(limits, key))
    ensures
      var log, limit := LogFrom(Run(limits, window, calls).1, key), Max(Capacity(ConfigOf(limits, key)), 0);
      && (Taken(log, w) > limit <==> exists i :: BeyondAt(limits, window, calls, key, w, i))
      && (Taken(log, w) > limit ==> exists i :: 0 <= i < |log| && log[i].windowStart == w && log[i].qty < 0)
  {
    RefundsNeeded(limits, window, calls, key, w);
    if calls != [] {
      var n := |calls| - 1;
      TakenBeyondCapacityIff(limits, window, calls[..n], key, w);
      LastBeyond(limits, window, calls, key, w);
      hide Run, BeyondAt, Taken, Capacity, Orderly;
      forall i | i < n
        ensures BeyondAt(limits, window, calls, key, w, i) <==> BeyondAt(limits, window, calls[..n], key, w, i)
      {
        EarlierBeyond(limits, window, calls, key, w, i);
      }
      forall i | BeyondAt(limits, window, calls, key, w, i) ensures i <= n {
        BeyondWithin(limits, window, calls, key, w, i);
      }
      forall i | BeyondAt(limits, window, calls[..n], key, w, i) ensures i < n {
        BeyondWithin(limits, window, calls[..n], key, w, i);
      }
    }
  }

  lemma BeyondWithin(limits: map<string, BucketConfig>, window: int, calls: seq<Call>, key: string, w: int, i: int)
    requires window > 0 && BeyondAt(limits, window, calls, key, w, i)
    ensures 0 <= i < |calls|
  {
  }

  lemma LastBeyond(limits: map<string, BucketConfig>, window: int, calls: seq<Call>, key: string, w: int)
    requires window > 0 && calls != [] && Orderly(window, calls) && FullyConfigured(ConfigOf(limits, key))
    ensures
      var n, limit := |calls| - 1, Max(Capacity(ConfigOf(limits, key)), 0);
      Taken(LogFrom(Run(limits, window, calls).1, key), w) > limit <==>
        Taken(LogFrom(Run(limits, window, calls[..n]).1, key), w) > limit || BeyondAt(limits, window, calls, key, w, n)
  {
    var n := |calls| - 1;
    var init, c := calls[..n], calls[n];
    var before, cfg := Run(limits, window, init), ConfigOf(limits, key);
    var st, log := LoadFrom(before.0, key), LogFrom(before.1, key);
    RunSoundAt(limits, window, init, key);
    assert EndOf(init) <= c.nowMs;
    if c.key == key && Step(cfg, window, st, c.req, c.nowMs).1 == Accepted {
      assert LogFrom(Run(limits, window, calls).1, key) == log + [ChargeOf(window, c.req, c.nowMs)];
      if WindowStart(NowSec(c.nowMs), window) == w {
        AcceptedBeyondIff(cfg, window, st, log, EndOf(init), c.req, c.nowMs);
      } else {
        OtherWindow(log, ChargeOf(window, c.req, c.nowMs), w);
      }
    } else {
      assert LogFrom(Run(limits, window, calls).1, key) == log;
    }
  }

  lemma OtherWindow(log: seq<Charge>, last: Charge, w: int)
    requires last.windowStart != w
    ensures Taken(log + [last], w) == Taken(log, w)
  {
    assert (log + [last])[..|log|] == log;
  }

  lemma RefundsNeeded(limits: map<string, BucketConfig>, window: int, calls: seq<Call>, key: string, w: int)
    requires window > 0 && Orderly(window, calls) && FullyConfigured(ConfigOf(limits, key))
    ensures
      var log := LogFrom(Run(limits, window, calls).1, key);
      Taken(log, w) > Max(Capacity(ConfigOf(limits, key)), 0) ==>
        exists i :: 0 <= i < |log| && log[i].windowStart == w && log[i].qty < 0
  {
    RunWithinLimits(limits, window, calls, key);
    TakenMinusGivenBack(LogFrom(Run(limits, window, calls).1, key), w);
    hide Run;
  }

  /** The run that uses up a capacity, gives one unit back and takes it again. */
  function RefundCalls(key: string, capacity: int, now: int): seq<Call> {
    [Call(key, Request(Some(capacity), None), now), Call(key, Request(Some(-1), None), now), Call(key, Request(Some(1), None), now)]
  }

  lemma ThreeCalls(limits: map<string, BucketConfig>, window: int, a: Call, b: Call, c: Call)
    requires window > 0
    ensures
      var s1, l1 := NextStorage(limits, window, map[], a.key, a.req, a.nowMs), NextLogs(limits, window, map[], map[], a.key, a.req, a.nowMs);
      var s2, l2 := NextStorage(limits, window, s1, b.key, b.req, b.nowMs), NextLogs(limits, window, s1, l1, b.key, b.req, b.nowMs);
      Run(limits, window, [a, b, c]) ==
        (NextStorage(limits, window, s2, c.key, c.req, c.nowMs), NextLogs(limits, window, s2, l2, c.key, c.req, c.nowMs))
  {
    assert [a, b, c][..2] == [a, b] && [a, b][..1] == [a] && [a][..0] == [];
    hide NextStorage, NextLogs;
    assert Run(limits, window, [a]) == (NextStorage(limits, window, map[], a.key, a.req, a.nowMs),
                                        NextLogs(limits, window, map[], map[], a.key, a.req, a.nowMs));
  }

  /** For every positive capacity there is such a run: the window takes one unit more than its capacity. */
  lemma RefundsExceed(limits: map<string, BucketConfig>, window: int, key: string, now: int)
    requires window > 0 && now >= 0 && NowSec(now) >= window && FullyConfigured(ConfigOf(limits, key))
    requires Capacity(ConfigOf(limits, key)) >= 1
    requires
      var cap := ConfigOf(limits, key).dailyCap;
      cap.Some? ==> cap.value >= Capacity(ConfigOf(limits, key))
    ensures
      var c, w := Capacity(ConfigOf(limits, key)), WindowStart(NowSec(now), window);
      var run := Run(limits, window, RefundCalls(key, c, now));
      && Orderly(window, RefundCalls(key, c, now))
      && Taken(LogFrom(run.1, key), w) == c + 1 > c && WindowSum(LogFrom(run.1, key), w) == c
  {
    var c, w := Capacity(ConfigOf(limits, key)), WindowStart(NowSec(now), window);
    var log := RefundLog(limits, window, key, now);
    hide Run, WindowStart, NowSec, WindowSum, Taken;
    SumsOfThree(Charge(w, Day(now), c, None), Charge(w, Day(now), -1, None), Charge(w, Day(now), 1, None), w);
  }

  lemma SumsOfThree(a: Charge, b: Charge, c: Charge, w: int)
    requires a.windowStart == b.windowStart == c.windowStart == w
    ensures WindowSum([a, b, c], w) == a.qty + b.qty + c.qty
    ensures Taken([a, b, c], w) == Max(a.qty, 0) + Max(b.qty, 0) + Max(c.qty, 0)
  {
    LastSummed([], a, w);
    LastSummed([a], b, w);
    LastSummed([a, b], c, w);
    assert [] + [a] == [a] && [a] + [b] == [a, b] && [a, b] + [c] == [a, b, c];
    hide Max;
  }

  lemma LastSummed(log: seq<Charge>, last: Charge, w: int)
    requires last.windowStart == w
    ensures WindowSum(log + [last], w) == WindowSum(log, w) + last.qty
    ensures Taken(log + [last], w) == Taken(log, w) + Max(last.qty, 0)
  {
    assert (log + [last])[..|log|] == log;
  }

  lemma RefundLog(limits: map<string, BucketConfig>, window: int, key: string, now: int) returns (log: seq<Charge>)
    requires window > 0 && now >= 0 && NowSec(now) >= window && FullyConfigured(ConfigOf(limits, key))
    requires Capacity(ConfigOf(limits, key)) >= 1
    requires
      var cap := ConfigOf(limits, key).dailyCap;
      cap.Some? ==> cap.value >= Capacity(ConfigOf(limits, key))
    ensures log == LogFrom(Run(limits, window, RefundCalls(key, Capacity(ConfigOf(limits, key)), now)).1, key)
    ensures
      var c, w := Capacity(ConfigOf(limits, key)), WindowStart(NowSec(now), window);
      log == [Charge(w, Day(now), c, None), Charge(w, Day(now), -1, None), Charge(w, Day(now), 1, None)]
  {
    var c, w := Capacity(ConfigOf(limits, key)), WindowStart(NowSec(now), window);
    var calls := RefundCalls(key, c, now);
    ThreeCalls(limits, window, calls[0], calls[1], calls[2]);
    WindowContains(NowSec(now), window);
    hide Run, WindowStart, Day, NowSec;
    log := [Charge(w, Day(now), c, None), Charge(w, Day(now), -1, None), Charge(w, Day(now), 1, None)];
  }
}

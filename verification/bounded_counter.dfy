/** The bounded counter guarded by a mutex and two condition variables, for any number of
    threads and any interleaving, spurious wakeups included. Two signalling rules are modelled:
    one signals after every unit, the other only when a boundary is left. */
module BoundedCounter {
  import opened Tally

  // ---------- Threads and state ----------

  /** Where a thread stands in its loop. */
  datatype Point =
    | Idle      // about to lock the mutex
    | Test      // holds the mutex, about to test the waiting condition
    | Blocked   // waiting on its condition variable
    | Woken     // woken, about to lock the mutex again
    | Update    // holds the mutex, about to change the count
    | Signal    // holds the mutex, about to signal the other side
    | Unlock    // holds the mutex, about to unlock it

  datatype Rule = EveryUnit | AtBoundary

  /** The bounds and the initial count. */
  datatype Config = Config(min: int, max: int, start: int, rule: Rule)

  datatype State = State(count: int, locked: bool, producers: seq<Point>, consumers: seq<Point>)

  ghost predicate Sensible(cfg: Config) {
    0 <= cfg.min && 0 < cfg.max && 0 <= cfg.start <= cfg.max
  }

  ghost predicate Init(cfg: Config, s: State) {
    && Sensible(cfg) && s.count == cfg.start && !s.locked
    && (forall i :: 0 <= i < |s.producers| ==> s.producers[i] == Idle)
    && (forall i :: 0 <= i < |s.consumers| ==> s.consumers[i] == Idle)
  }

  predicate SignalsUnit(cfg: Config, count: int) {
    match cfg.rule case EveryUnit => count > cfg.min case AtBoundary => count == cfg.min + 1
  }

  predicate SignalsSpace(cfg: Config, count: int) {
    match cfg.rule case EveryUnit => count < cfg.max case AtBoundary => count == cfg.max - 1
  }

  /** Signalling wakes one blocked thread, whichever, if there is one. */
  ghost predicate Wakes(waiting: seq<Point>, waiting': seq<Point>) {
    if exists j :: 0 <= j < |waiting| && waiting[j] == Blocked
    then exists j :: 0 <= j < |waiting| && waiting[j] == Blocked && waiting' == waiting[j := Woken]
    else waiting' == waiting
  }

  // ---------- Steps ----------

  ghost predicate ProducerStep(cfg: Config, s: State, s': State, i: int) {
    && 0 <= i < |s.producers|
    && match s.producers[i]
       case Idle => !s.locked && s' == s.(locked := true, producers := s.producers[i := Test])
       case Test =>
         if s.count < cfg.max then s' == s.(producers := s.producers[i := Update])
         else s' == s.(locked := false, producers := s.producers[i := Blocked])
       case Blocked => s' == s.(producers := s.producers[i := Woken])  // spurious
       case Woken => !s.locked && s' == s.(locked := true, producers := s.producers[i := Test])
       case Update => s' == s.(count := s.count + 1, producers := s.producers[i := Signal])
       case Signal =>
         && s'.producers == s.producers[i := Unlock] && s'.count == s.count && s'.locked == s.locked
         && if SignalsUnit(cfg, s.count) then Wakes(s.consumers, s'.consumers) else s'.consumers == s.consumers
       case Unlock => s' == s.(locked := false, producers := s.producers[i := Idle])
  }

  ghost predicate ConsumerStep(cfg: Config, s: State, s': State, i: int) {
    && 0 <= i < |s.consumers|
    && match s.consumers[i]
       case Idle => !s.locked && s' == s.(locked := true, consumers := s.consumers[i := Test])
       case Test =>
         if s.count > cfg.min then s' == s.(consumers := s.consumers[i := Update])
         else s' == s.(locked := false, consumers := s.consumers[i := Blocked])
       case Blocked => s' == s.(consumers := s.consumers[i := Woken])  // spurious
       case Woken => !s.locked && s' == s.(locked := true, consumers := s.consumers[i := Test])
       case Update => s' == s.(count := s.count - 1, consumers := s.consumers[i := Signal])
       case Signal =>
         && s'.consumers == s.consumers[i := Unlock] && s'.count == s.count && s'.locked == s.locked
         && if SignalsSpace(cfg, s.count) then Wakes(s.producers, s'.producers) else s'.producers == s.producers
       case Unlock => s' == s.(locked := false, consumers := s.consumers[i := Idle])
  }

  ghost predicate Step(cfg: Config, s: State, s': State) {
    (exists i :: ProducerStep(cfg, s, s', i)) || (exists i :: ConsumerStep(cfg, s, s', i))
  }

  ghost predicate Run(cfg: Config, run: seq<State>) {
    && run != [] && Init(cfg, run[0])
    && forall i :: 0 <= i < |run| - 1 ==> Step(cfg, run[i], run[i+1])
  }

  // ---------- Counting threads ----------

  predicate Holds(p: Point) { p.Test? || p.Update? || p.Signal? || p.Unlock? }
  predicate Waits(p: Point) { p.Blocked? }
  predicate Contends(p: Point) { p.Woken? || p.Test? || p.Update? }
  predicate Signals(p: Point) { p.Signal? }
  predicate Updates(p: Point) { p.Update? }

  lemma Moves(s: seq<Point>, i: int, x: Point)
    requires 0 <= i < |s|
    ensures Count(s[i := x], Holds) == Count(s, Holds) - One(Holds(s[i])) + One(Holds(x))
    ensures Count(s[i := x], Waits) == Count(s, Waits) - One(Waits(s[i])) + One(Waits(x))
    ensures Count(s[i := x], Contends) == Count(s, Contends) - One(Contends(s[i])) + One(Contends(x))
    ensures Count(s[i := x], Signals) == Count(s, Signals) - One(Signals(s[i])) + One(Signals(x))
    ensures Count(s[i := x], Updates) == Count(s, Updates) - One(Updates(s[i])) + One(Updates(x))
    ensures One(Holds(s[i])) <= Count(s, Holds) && One(Waits(s[i])) <= Count(s, Waits)
    ensures One(Updates(s[i])) <= Count(s, Updates)
  {
    CountUpdate(s, i, x, Holds);
    CountUpdate(s, i, x, Waits);
    CountUpdate(s, i, x, Contends);
    CountUpdate(s, i, x, Signals);
    CountUpdate(s, i, x, Updates);
  }

  /** A signal moves one blocked thread, if any, to the contenders. */
  lemma WakesCounts(w: seq<Point>, w': seq<Point>)
    requires Wakes(w, w')
    ensures var k := if Count(w, Waits) > 0 then 1 else 0;
      && Count(w', Waits) == Count(w, Waits) - k && Count(w', Contends) == Count(w, Contends) + k
      && Count(w', Holds) == Count(w, Holds) && Count(w', Signals) == Count(w, Signals)
          && Count(w', Updates) == Count(w, Updates)
    ensures |w'| == |w|
  {
    if j :| 0 <= j < |w| && w[j] == Blocked {
      Moves(w, j, Woken);
      var m :| 0 <= m < |w| && w[m] == Blocked && w' == w[m := Woken];
      Moves(w, m, Woken);
    } else {
      CountNone(w, Waits);
    }
  }

  // ---------- Invariant common to both rules ----------

  ghost predicate Guarded(cfg: Config, s: State) {
    && (if s.locked then 1 else 0) == Count(s.producers, Holds) + Count(s.consumers, Holds)
    && 0 <= s.count <= cfg.max && 0 <= cfg.min
    && (Count(s.producers, Updates) > 0 ==> s.count < cfg.max)
    && (Count(s.consumers, Updates) > 0 ==> s.count > cfg.min)
    && (Count(s.consumers, Signals) > 0 ==> s.count >= cfg.min)
  }

  lemma UpdatesHold(s: seq<Point>)
    ensures Count(s, Updates) <= Count(s, Holds) && Count(s, Signals) <= Count(s, Holds)
  {
    CountLess(s, Updates, Holds);
    CountLess(s, Signals, Holds);
  }

  lemma ProducerKeepsGuarded(cfg: Config, s: State, s': State, i: int)
    requires Guarded(cfg, s) && ProducerStep(cfg, s, s', i)
    ensures Guarded(cfg, s')
  {
    hide Count;
    UpdatesHold(s.producers);
    UpdatesHold(s.consumers);
    if s.producers[i].Signal? {
      Moves(s.producers, i, Unlock);
      if SignalsUnit(cfg, s.count) { WakesCounts(s.consumers, s'.consumers); }
    } else {
      Moves(s.producers, i, s'.producers[i]);
      assert s'.producers == s.producers[i := s'.producers[i]];
    }
  }

  lemma ConsumerKeepsGuarded(cfg: Config, s: State, s': State, i: int)
    requires Guarded(cfg, s) && ConsumerStep(cfg, s, s', i)
    ensures Guarded(cfg, s')
  {
    hide Count;
    UpdatesHold(s.producers);
    UpdatesHold(s.consumers);
    if s.consumers[i].Signal? {
      Moves(s.consumers, i, Unlock);
      if SignalsSpace(cfg, s.count) { WakesCounts(s.producers, s'.producers); }
    } else {
      Moves(s.consumers, i, s'.consumers[i]);
      assert s'.consumers == s.consumers[i := s'.consumers[i]];
    }
  }

  /** Once the minimum is reached, the count never drops below it again. */
  lemma MinimumIsKept(cfg: Config, s: State, s': State)
    requires Guarded(cfg, s) && Step(cfg, s, s') && s.count >= cfg.min
    ensures s'.count >= cfg.min
  {
    hide Count, Wakes;
    if i :| ConsumerStep(cfg, s, s', i) && s.consumers[i].Update? {
      Moves(s.consumers, i, Signal);
    }
  }

  // ---------- Where no wakeup is lost ----------

  /** Signalling after every unit is enough for any number of threads; signalling at the boundaries
      is, when the count moves between two values only. */
  ghost predicate SignalsSuffice(cfg: Config) {
    cfg.rule == EveryUnit || cfg.max <= cfg.min + 1
  }

  /** While a consumer is blocked, every available unit has a consumer that was woken for it and
      still contends, or a producer about to signal; and dually for free space. */
  ghost predicate NoLostWakeup(cfg: Config, s: State) {
    && (Count(s.consumers, Waits) > 0 ==>
        s.count - cfg.min <= Count(s.consumers, Contends) + Count(s.producers, Signals))
    && (Count(s.producers, Waits) > 0 ==>
        cfg.max - s.count <= Count(s.producers, Contends) + Count(s.consumers, Signals))
  }

  lemma ProducerKeepsWakeups(cfg: Config, s: State, s': State, i: int)
    requires SignalsSuffice(cfg) && Guarded(cfg, s) && NoLostWakeup(cfg, s) && ProducerStep(cfg, s, s', i)
    ensures NoLostWakeup(cfg, s')
  {
    hide Count;
    if s.producers[i].Signal? {
      Moves(s.producers, i, Unlock);
      if SignalsUnit(cfg, s.count) { WakesCounts(s.consumers, s'.consumers); }
    } else {
      Moves(s.producers, i, s'.producers[i]);
      assert s'.producers == s.producers[i := s'.producers[i]];
    }
  }

  lemma ConsumerKeepsWakeups(cfg: Config, s: State, s': State, i: int)
    requires SignalsSuffice(cfg) && Guarded(cfg, s) && NoLostWakeup(cfg, s) && ConsumerStep(cfg, s, s', i)
    ensures NoLostWakeup(cfg, s')
  {
    hide Count;
    if s.consumers[i].Signal? {
      Moves(s.consumers, i, Unlock);
      if SignalsSpace(cfg, s.count) { WakesCounts(s.producers, s'.producers); }
    } else {
      Moves(s.consumers, i, s'.consumers[i]);
      assert s'.consumers == s.consumers[i := s'.consumers[i]];
    }
  }

  lemma InitHolds(cfg: Config, s: State)
    requires Init(cfg, s)
    ensures Guarded(cfg, s) && NoLostWakeup(cfg, s)
  {
    CountNone(s.producers, Holds);
    CountNone(s.consumers, Holds);
    CountNone(s.producers, Updates);
    CountNone(s.consumers, Updates);
    CountNone(s.consumers, Signals);
    CountNone(s.producers, Waits);
    CountNone(s.consumers, Waits);
  }

  lemma {:induction false} RunKeepsGuarded(cfg: Config, run: seq<State>, k: nat)
    requires Run(cfg, run) && k < |run|
    ensures Guarded(cfg, run[k])
    ensures SignalsSuffice(cfg) ==> NoLostWakeup(cfg, run[k])
    ensures |run[k].producers| == |run[0].producers| && |run[k].consumers| == |run[0].consumers|
  {
    hide Guarded, NoLostWakeup, Init, ProducerStep, ConsumerStep, SignalsSuffice;
    if k == 0 {
      InitHolds(cfg, run[0]);
    } else {
      var s, s' := run[k-1], run[k];
      RunKeepsGuarded(cfg, run, k - 1);
      assert Step(cfg, run[k-1], run[k-1+1]);
      SameThreads(cfg, s, s');
      if i :| ProducerStep(cfg, s, s', i) {
        ProducerKeepsGuarded(cfg, s, s', i);
        if SignalsSuffice(cfg) { ProducerKeepsWakeups(cfg, s, s', i); }
      } else {
        var i :| ConsumerStep(cfg, s, s', i);
        ConsumerKeepsGuarded(cfg, s, s', i);
        if SignalsSuffice(cfg) { ConsumerKeepsWakeups(cfg, s, s', i); }
      }
    }
  }

  /** Along every run the minimum, once reached, is kept. */
  lemma {:induction false} RunKeepsMinimum(cfg: Config, run: seq<State>, j: nat, k: nat)
    requires Run(cfg, run) && j <= k < |run| && run[j].count >= cfg.min
    ensures run[k].count >= cfg.min && run[k].count <= cfg.max
    decreases k
  {
    hide Guarded, Init, Step;
    RunKeepsGuarded(cfg, run, k);
    CountInBounds(cfg, run[k]);
    if j < k {
      RunKeepsMinimum(cfg, run, j, k - 1);
      RunKeepsGuarded(cfg, run, k - 1);
      assert Step(cfg, run[k-1], run[k-1+1]);
      MinimumIsKept(cfg, run[k-1], run[k]);
    }
  }

  lemma CountInBounds(cfg: Config, s: State)
    requires Guarded(cfg, s)
    ensures 0 <= s.count <= cfg.max
  {}

  predicate IsWoken(p: Point) { p.Woken? }
  predicate Checks(p: Point) { p.Test? || p.Update? }

  /** Seen between two critical sections: every unit that a blocked consumer could take belongs
      to a consumer that was woken already, and the same for free space and producers. */
  lemma WokenCoverUnits(cfg: Config, run: seq<State>, k: nat)
    requires Run(cfg, run) && k < |run| && SignalsSuffice(cfg) && !run[k].locked
    ensures (exists i :: 0 <= i < |run[k].consumers| && run[k].consumers[i] == Blocked) ==>
              run[k].count - cfg.min <= Count(run[k].consumers, IsWoken)
    ensures (exists i :: 0 <= i < |run[k].producers| && run[k].producers[i] == Blocked) ==>
              cfg.max - run[k].count <= Count(run[k].producers, IsWoken)
  {
    var s := run[k];
    RunKeepsGuarded(cfg, run, k);
    OnlyWokenContend(s.producers);
    OnlyWokenContend(s.consumers);
    if i :| 0 <= i < |s.consumers| && s.consumers[i] == Blocked { Moves(s.consumers, i, Idle); }
    if i :| 0 <= i < |s.producers| && s.producers[i] == Blocked { Moves(s.producers, i, Idle); }
  }

  lemma OnlyWokenContend(s: seq<Point>)
    requires Count(s, Holds) == 0
    ensures Count(s, Contends) == Count(s, IsWoken) && Count(s, Signals) == 0
  {
    CountSplit(s, Contends, IsWoken, Checks);
    CountLess(s, Checks, Holds);
    CountLess(s, Signals, Holds);
  }

  lemma SameThreads(cfg: Config, s: State, s': State)
    requires Step(cfg, s, s')
    ensures |s'.producers| == |s.producers| && |s'.consumers| == |s.consumers|
  {}

  // ---------- Deadlock-freedom, exactly when min < max ----------

  ghost predicate AllBlocked(s: State) {
    && (forall i :: 0 <= i < |s.producers| ==> s.producers[i] == Blocked)
    && (forall i :: 0 <= i < |s.consumers| ==> s.consumers[i] == Blocked)
  }

  /** A step of a thread that is not blocked, so no spurious wakeup is needed for it. */
  ghost predicate OwnStep(cfg: Config, s: State, s': State) {
    || (exists i :: ProducerStep(cfg, s, s', i) && s.producers[i] != Blocked)
    || (exists i :: ConsumerStep(cfg, s, s', i) && s.consumers[i] != Blocked)
  }

  lemma BlockedThreads(s: seq<Point>)
    requires forall i :: 0 <= i < |s| ==> s[i] == Blocked
    ensures Count(s, Waits) == |s| && Count(s, Contends) == 0 && Count(s, Signals) == 0
  {
    CountNone(s, Contends);
    CountNone(s, Signals);
    CountAll(s, Waits);
  }

  lemma {:induction false} CountAll<T>(s: seq<T>, f: T -> bool)
    requires forall i :: 0 <= i < |s| ==> f(s[i])
    ensures Count(s, f) == |s|
  {
    if s != [] {
      assert forall i :: 0 <= i < |s| - 1 ==> s[..|s| - 1][i] == s[i];
      CountAll(s[..|s| - 1], f);
    }
  }

  /** There is space only while some producer is not blocked, or about to be signalled for the
      first free space; and dually for units and consumers. Both rules keep this. */
  ghost predicate Alive(cfg: Config, s: State) {
    && (s.count < cfg.max ==>
        || Count(s.producers, Waits) < |s.producers|
        || (s.count == cfg.max - 1 && Count(s.consumers, Signals) > 0))
    && (s.count > cfg.min ==>
        || Count(s.consumers, Waits) < |s.consumers|
        || (s.count == cfg.min + 1 && Count(s.producers, Signals) > 0))
  }

  /** Whoever holds the mutex for something else keeps everybody from signalling. */
  lemma HolderIsAlone(s: seq<Point>, i: int)
    requires 0 <= i < |s| && Holds(s[i]) && !Signals(s[i]) && Count(s, Holds) <= 1
    ensures Count(s, Signals) == 0
  {
    Moves(s, i, Idle);
    UpdatesHold(s[i := Idle]);
  }

  lemma ProducerKeepsAlive(cfg: Config, s: State, s': State, i: int)
    requires Guarded(cfg, s) && Alive(cfg, s) && ProducerStep(cfg, s, s', i) && |s.consumers| > 0
    ensures Alive(cfg, s')
  {
    hide Count;
    UpdatesHold(s.consumers);
    if s.producers[i].Signal? {
      Moves(s.producers, i, Unlock);
      if SignalsUnit(cfg, s.count) { WakesCounts(s.consumers, s'.consumers); }
      CountFits(s.consumers, Waits);
    } else {
      Moves(s.producers, i, s'.producers[i]);
      if s.producers[i].Update? { HolderIsAlone(s.producers, i); }
      assert s'.producers == s.producers[i := s'.producers[i]];
    }
  }

  lemma ConsumerKeepsAlive(cfg: Config, s: State, s': State, i: int)
    requires Guarded(cfg, s) && Alive(cfg, s) && ConsumerStep(cfg, s, s', i) && |s.producers| > 0
    ensures Alive(cfg, s')
  {
    hide Count;
    UpdatesHold(s.producers);
    if s.consumers[i].Signal? {
      Moves(s.consumers, i, Unlock);
      if SignalsSpace(cfg, s.count) { WakesCounts(s.producers, s'.producers); }
      CountFits(s.producers, Waits);
    } else {
      Moves(s.consumers, i, s'.consumers[i]);
      if s.consumers[i].Update? { HolderIsAlone(s.consumers, i); }
      assert s'.consumers == s.consumers[i := s'.consumers[i]];
    }
  }

  lemma {:induction false} RunKeepsAlive(cfg: Config, run: seq<State>, k: nat)
    requires Run(cfg, run) && k < |run| && |run[0].producers| > 0 && |run[0].consumers| > 0
    ensures Alive(cfg, run[k])
  {
    hide Guarded, Init, ProducerStep, ConsumerStep;
    if k == 0 {
      assert Init(cfg, run[0]);
      InitAlive(cfg, run[0]);
    } else {
      hide Alive;
      var s, s' := run[k-1], run[k];
      RunKeepsAlive(cfg, run, k - 1);
      RunKeepsGuarded(cfg, run, k - 1);
      assert Step(cfg, run[k-1], run[k-1+1]);
      if i :| ProducerStep(cfg, s, s', i) {
        ProducerKeepsAlive(cfg, s, s', i);
      } else {
        var i :| ConsumerStep(cfg, s, s', i);
        ConsumerKeepsAlive(cfg, s, s', i);
      }
    }
  }

  lemma InitAlive(cfg: Config, s: State)
    requires Init(cfg, s) && |s.producers| > 0 && |s.consumers| > 0
    ensures Alive(cfg, s)
  {
    CountNone(s.producers, Waits);
    CountNone(s.consumers, Waits);
  }

  /** No run blocks every thread when min < max, whichever rule is used. */
  lemma NeverAllBlocked(cfg: Config, run: seq<State>, k: nat)
    requires Run(cfg, run) && k < |run| && cfg.min < cfg.max
    requires |run[k].producers| > 0 && |run[k].consumers| > 0
    ensures !AllBlocked(run[k])
  {
    var s := run[k];
    RunKeepsGuarded(cfg, run, k);
    RunKeepsAlive(cfg, run, k);
    if AllBlocked(s) {
      BlockedThreads(s.producers);
      BlockedThreads(s.consumers);
    }
  }

  lemma SomeWake(w: seq<Point>) returns (w': seq<Point>)
    ensures Wakes(w, w')
  {
    if j :| 0 <= j < |w| && w[j] == Blocked { w' := w[j := Woken]; } else { w' := w; }
  }

  lemma ProducerCanStep(cfg: Config, s: State, i: int) returns (s': State)
    requires 0 <= i < |s.producers| && s.producers[i] != Blocked
    requires s.producers[i].Idle? || s.producers[i].Woken? ==> !s.locked
    ensures OwnStep(cfg, s, s')
  {
    var w := SomeWake(s.consumers);
    s' := match s.producers[i]
      case Idle => s.(locked := true, producers := s.producers[i := Test])
      case Test => if s.count < cfg.max then s.(producers := s.producers[i := Update])
                   else s.(locked := false, producers := s.producers[i := Blocked])
      case Blocked => s
      case Woken => s.(locked := true, producers := s.producers[i := Test])
      case Update => s.(count := s.count + 1, producers := s.producers[i := Signal])
      case Signal =>
        var C := if SignalsUnit(cfg, s.count) then w else s.consumers;
        s.(producers := s.producers[i := Unlock], consumers := C)
      case Unlock => s.(locked := false, producers := s.producers[i := Idle]);
    assert ProducerStep(cfg, s, s', i);
  }

  lemma ConsumerCanStep(cfg: Config, s: State, i: int) returns (s': State)
    requires 0 <= i < |s.consumers| && s.consumers[i] != Blocked
    requires s.consumers[i].Idle? || s.consumers[i].Woken? ==> !s.locked
    ensures OwnStep(cfg, s, s')
  {
    var w := SomeWake(s.producers);
    s' := match s.consumers[i]
      case Idle => s.(locked := true, consumers := s.consumers[i := Test])
      case Test => if s.count > cfg.min then s.(consumers := s.consumers[i := Update])
                   else s.(locked := false, consumers := s.consumers[i := Blocked])
      case Blocked => s
      case Woken => s.(locked := true, consumers := s.consumers[i := Test])
      case Update => s.(count := s.count - 1, consumers := s.consumers[i := Signal])
      case Signal =>
        var P := if SignalsSpace(cfg, s.count) then w else s.producers;
        s.(consumers := s.consumers[i := Unlock], producers := P)
      case Unlock => s.(locked := false, consumers := s.consumers[i := Idle]);
    assert ConsumerStep(cfg, s, s', i);
  }

  /** In any guarded state that does not block everyone, some thread can go on by itself. */
  lemma SomeoneCanStep(cfg: Config, s: State) returns (s': State)
    requires Guarded(cfg, s) && !AllBlocked(s)
    ensures OwnStep(cfg, s, s')
  {
    hide OwnStep;
    if Count(s.producers, Holds) > 0 {
      var i := CountSome(s.producers, Holds);
      s' := ProducerCanStep(cfg, s, i);
    } else if Count(s.consumers, Holds) > 0 {
      var i := CountSome(s.consumers, Holds);
      s' := ConsumerCanStep(cfg, s, i);
    } else if i :| 0 <= i < |s.producers| && s.producers[i] != Blocked {
      NotCounted(s.producers, Holds, i);
      s' := ProducerCanStep(cfg, s, i);
    } else {
      var i :| 0 <= i < |s.consumers| && s.consumers[i] != Blocked;
      NotCounted(s.consumers, Holds, i);
      s' := ConsumerCanStep(cfg, s, i);
    }
  }

  // ---------- Runs put together from whole critical sections ----------

  ghost function Last(run: seq<State>): State
    requires run != []
  {
    run[|run| - 1]
  }

  lemma Then(cfg: Config, run: seq<State>, s': State) returns (run': seq<State>)
    requires Run(cfg, run) && Step(cfg, Last(run), s')
    ensures Run(cfg, run') && run' == run + [s'] && Last(run') == s'
  {
    run' := run + [s'];
    forall i | 0 <= i < |run'| - 1 ensures Step(cfg, run'[i], run'[i+1]) {
      if i < |run| - 1 { assert Step(cfg, run[i], run[i+1]); }
    }
  }

  lemma ThenProducer(cfg: Config, run: seq<State>, s': State, i: int) returns (run': seq<State>)
    requires Run(cfg, run) && ProducerStep(cfg, Last(run), s', i)
    ensures Run(cfg, run') && Last(run') == s'
  {
    run' := Then(cfg, run, s');
  }

  lemma ThenConsumer(cfg: Config, run: seq<State>, s': State, i: int) returns (run': seq<State>)
    requires Run(cfg, run) && ConsumerStep(cfg, Last(run), s', i)
    ensures Run(cfg, run') && Last(run') == s'
  {
    run' := Then(cfg, run, s');
  }

  /** Thread i can lock the free mutex. */
  ghost predicate Ready(s: State, threads: seq<Point>, i: int) {
    !s.locked && 0 <= i < |threads| && (threads[i] == Idle || threads[i] == Woken)
  }

  lemma ProduceOne(cfg: Config, run: seq<State>, i: int, C: seq<Point>) returns (run': seq<State>)
    requires Run(cfg, run) && Ready(Last(run), Last(run).producers, i) && Last(run).count < cfg.max
    requires if SignalsUnit(cfg, Last(run).count + 1) then Wakes(Last(run).consumers, C) else C == Last(run).consumers
    ensures Run(cfg, run')
    ensures Last(run') == State(Last(run).count + 1, false, Last(run).producers[i := Idle], C)
  {
    var s := Last(run);
    hide Run, Wakes;
    var P := s.producers;
    run' := ThenProducer(cfg, run, s.(locked := true, producers := P[i := Test]), i);
    run' := ThenProducer(cfg, run', s.(locked := true, producers := P[i := Update]), i);
    run' := ThenProducer(cfg, run', State(s.count + 1, true, P[i := Signal], s.consumers), i);
    run' := ThenProducer(cfg, run', State(s.count + 1, true, P[i := Unlock], C), i);
    run' := ThenProducer(cfg, run', State(s.count + 1, false, P[i := Idle], C), i);
  }

  lemma ConsumeOne(cfg: Config, run: seq<State>, i: int, P: seq<Point>) returns (run': seq<State>)
    requires Run(cfg, run) && Ready(Last(run), Last(run).consumers, i) && Last(run).count > cfg.min
    requires if SignalsSpace(cfg, Last(run).count - 1) then Wakes(Last(run).producers, P) else P == Last(run).producers
    ensures Run(cfg, run')
    ensures Last(run') == State(Last(run).count - 1, false, P, Last(run).consumers[i := Idle])
  {
    var s := Last(run);
    hide Run, Wakes;
    var C := s.consumers;
    run' := ThenConsumer(cfg, run, s.(locked := true, consumers := C[i := Test]), i);
    run' := ThenConsumer(cfg, run', s.(locked := true, consumers := C[i := Update]), i);
    run' := ThenConsumer(cfg, run', State(s.count - 1, true, s.producers, C[i := Signal]), i);
    run' := ThenConsumer(cfg, run', State(s.count - 1, true, P, C[i := Unlock]), i);
    run' := ThenConsumer(cfg, run', State(s.count - 1, false, P, C[i := Idle]), i);
  }

  lemma BlockProducer(cfg: Config, run: seq<State>, i: int) returns (run': seq<State>)
    requires Run(cfg, run) && Ready(Last(run), Last(run).producers, i) && Last(run).count >= cfg.max
    ensures Run(cfg, run') && Last(run') == Last(run).(producers := Last(run).producers[i := Blocked])
  {
    var s := Last(run);
    hide Run;
    run' := ThenProducer(cfg, run, s.(locked := true, producers := s.producers[i := Test]), i);
    run' := ThenProducer(cfg, run', s.(producers := s.producers[i := Blocked]), i);
  }

  lemma BlockConsumer(cfg: Config, run: seq<State>, i: int) returns (run': seq<State>)
    requires Run(cfg, run) && Ready(Last(run), Last(run).consumers, i) && Last(run).count <= cfg.min
    ensures Run(cfg, run') && Last(run') == Last(run).(consumers := Last(run).consumers[i := Blocked])
  {
    var s := Last(run);
    hide Run;
    run' := ThenConsumer(cfg, run, s.(locked := true, consumers := s.consumers[i := Test]), i);
    run' := ThenConsumer(cfg, run', s.(consumers := s.consumers[i := Blocked]), i);
  }

  /** The first b threads are blocked, the others idle. */
  ghost function Row(n: nat, b: int): seq<Point> { seq(n, i => if i < b then Blocked else Idle) }

  lemma {:induction false} FillUp(cfg: Config, np: nat, nc: nat, c: int) returns (run: seq<State>)
    requires Sensible(cfg) && np > 0 && cfg.start <= c <= cfg.max
    ensures Run(cfg, run) && Last(run) == State(c, false, Row(np, 0), Row(nc, 0))
    decreases c
  {
    if c == cfg.start {
      run := [State(c, false, Row(np, 0), Row(nc, 0))];
    } else {
      run := FillUp(cfg, np, nc, c - 1);
      run := ProduceOne(cfg, run, 0, Row(nc, 0));
      assert Row(np, 0)[0 := Idle] == Row(np, 0);
    }
  }

  lemma {:induction false} Drain(cfg: Config, np: nat, nc: nat, c: int) returns (run: seq<State>)
    requires Sensible(cfg) && nc > 0 && cfg.min <= c <= cfg.start
    ensures Run(cfg, run) && Last(run) == State(c, false, Row(np, 0), Row(nc, 0))
    decreases cfg.start - c
  {
    if c == cfg.start {
      run := [State(c, false, Row(np, 0), Row(nc, 0))];
    } else {
      run := Drain(cfg, np, nc, c + 1);
      run := ConsumeOne(cfg, run, 0, Row(np, 0));
      assert Row(nc, 0)[0 := Idle] == Row(nc, 0);
    }
  }

  // ---------- With min >= max every thread can end up blocked ----------

  lemma {:induction false} BlockProducers(cfg: Config, np: nat, nc: nat, b: nat) returns (run: seq<State>)
    requires Sensible(cfg) && np > 0 && b <= np
    ensures Run(cfg, run) && Last(run) == State(cfg.max, false, Row(np, b), Row(nc, 0))
    decreases b
  {
    hide Run;
    if b == 0 {
      run := FillUp(cfg, np, nc, cfg.max);
    } else {
      run := BlockProducers(cfg, np, nc, b - 1);
      run := BlockProducer(cfg, run, b - 1);
      assert Row(np, b - 1)[b - 1 := Blocked] == Row(np, b);
    }
  }

  lemma {:induction false} BlockConsumers(cfg: Config, np: nat, nc: nat, b: nat) returns (run: seq<State>)
    requires Sensible(cfg) && cfg.max <= cfg.min && np > 0 && b <= nc
    ensures Run(cfg, run) && Last(run) == State(cfg.max, false, Row(np, np), Row(nc, b))
    decreases b
  {
    hide Run;
    if b == 0 {
      run := BlockProducers(cfg, np, nc, np);
    } else {
      run := BlockConsumers(cfg, np, nc, b - 1);
      run := BlockConsumer(cfg, run, b - 1);
      assert Row(nc, b - 1)[b - 1 := Blocked] == Row(nc, b);
    }
  }

  /** State k of the run of np producers and nc consumers. */
  ghost predicate Within(cfg: Config, run: seq<State>, k: nat, np: nat, nc: nat) {
    Run(cfg, run) && k < |run| && |run[k].producers| == np && |run[k].consumers| == nc
  }

  ghost predicate CanBlockAll(cfg: Config, np: nat, nc: nat) {
    exists run, k :: Within(cfg, run, k, np, nc) && AllBlocked(run[k])
  }

  /** With either rule, all threads can block exactly when min is not below max. */
  lemma DeadlockExactlyWhen(cfg: Config, np: nat, nc: nat)
    requires Sensible(cfg) && np > 0 && nc > 0
    ensures CanBlockAll(cfg, np, nc) <==> cfg.max <= cfg.min
  {
    if cfg.max <= cfg.min {
      var run := BlockConsumers(cfg, np, nc, nc);
      assert Within(cfg, run, |run| - 1, np, nc);
    }
    if run, k :| Within(cfg, run, k, np, nc) && AllBlocked(run[k]) {
      if cfg.min < cfg.max { NeverAllBlocked(cfg, run, k); }
    }
  }

  // ---------- Signalling at boundaries: right for one producer and one consumer ----------

  /** A blocked consumer means no unit, unless the producer is about to signal the first one;
      a blocked producer means no space, unless the consumer is about to signal the first one. */
  ghost predicate PairState(cfg: Config, s: State) {
    && |s.producers| == 1 && |s.consumers| == 1
    && (s.consumers[0] == Blocked ==> s.count <= cfg.min || (s.count == cfg.min + 1 && s.producers[0] == Signal))
    && (s.producers[0] == Blocked ==> s.count >= cfg.max || (s.count == cfg.max - 1 && s.consumers[0] == Signal))
  }

  lemma PairStep(cfg: Config, s: State, s': State)
    requires Guarded(cfg, s) && PairState(cfg, s) && Step(cfg, s, s')
    ensures PairState(cfg, s')
  {
    Moves(s.producers, 0, Idle);
    Moves(s.consumers, 0, Idle);
    if i :| ProducerStep(cfg, s, s', i) {
      assert i == 0 && s'.producers == [s'.producers[0]];
    } else {
      var i :| ConsumerStep(cfg, s, s', i);
      assert i == 0 && s'.consumers == [s'.consumers[0]];
    }
  }

  lemma {:induction false} PairRun(cfg: Config, run: seq<State>, k: nat)
    requires Run(cfg, run) && k < |run| && |run[0].producers| == 1 && |run[0].consumers| == 1
    ensures PairState(cfg, run[k])
  {
    hide Step, Guarded;
    if k == 0 {
      assert Init(cfg, run[0]);
    } else {
      hide PairState;
      PairRun(cfg, run, k - 1);
      RunKeepsGuarded(cfg, run, k - 1);
      assert Step(cfg, run[k-1], run[k-1+1]);
      PairStep(cfg, run[k-1], run[k]);
    }
  }

  lemma PairLosesNone(cfg: Config, s: State)
    requires PairState(cfg, s)
    ensures NoLostWakeup(cfg, s)
  {
    Moves(s.producers, 0, Idle);
    Moves(s.consumers, 0, Idle);
    CountOfOne(s.producers);
    CountOfOne(s.consumers);
  }

  lemma CountOfOne(s: seq<Point>)
    requires |s| == 1
    ensures Count(s, Waits) == One(Waits(s[0])) && Count(s, Signals) == One(Signals(s[0]))
  {
    assert s[..0] == [];
  }

  /** The pair is never both blocked; an unsignalled blocked consumer sees no unit and an
      unsignalled blocked producer no space, as soon as the mutex is free. */
  lemma PairNeverBlocks(cfg: Config, run: seq<State>, k: nat)
    requires Within(cfg, run, k, 1, 1)
    ensures cfg.min < cfg.max ==> !AllBlocked(run[k])
    ensures !run[k].locked && run[k].consumers[0] == Blocked ==> run[k].count <= cfg.min
    ensures !run[k].locked && run[k].producers[0] == Blocked ==> run[k].count == cfg.max
  {
    var s := run[k];
    RunKeepsGuarded(cfg, run, k);
    PairRun(cfg, run, k);
    Moves(s.producers, 0, Idle);
    Moves(s.consumers, 0, Idle);
  }

  // ---------- ... and wrong for any other number of threads, if the count has room ----------

  ghost predicate StrandedBy(room: int, threads: seq<Point>) {
    room > 0 && Blocked in threads && Woken !in threads
  }

  /** With the mutex free, someone is blocked beside a unit or a space that nobody was woken for. */
  ghost predicate Stranded(cfg: Config, s: State) {
    !s.locked && (StrandedBy(s.count - cfg.min, s.consumers) || StrandedBy(cfg.max - s.count, s.producers))
  }

  lemma StrandedIsLost(cfg: Config, s: State)
    requires Guarded(cfg, s) && Stranded(cfg, s)
    ensures !NoLostWakeup(cfg, s)
  {
    OnlyWokenContend(s.producers);
    OnlyWokenContend(s.consumers);
    var threads := if StrandedBy(s.count - cfg.min, s.consumers) then s.consumers else s.producers;
    CountNone(threads, IsWoken);
    var i :| 0 <= i < |threads| && threads[i] == Blocked;
    Moves(threads, i, Idle);
  }

  /** Two consumers wait at the minimum. The first unit wakes one of them, the second unit nobody;
      the one that was woken takes one unit and leaves the other beside the second. */
  lemma StrandConsumer(cfg: Config, np: nat, nc: nat) returns (run: seq<State>)
    requires Sensible(cfg) && cfg.rule == AtBoundary && cfg.max >= cfg.min + 2 && np > 0 && nc >= 2
    ensures Run(cfg, run) && |Last(run).producers| == np && |Last(run).consumers| == nc && Stranded(cfg, Last(run))
  {
    if cfg.start <= cfg.min { run := FillUp(cfg, np, nc, cfg.min); } else { run := Drain(cfg, np, nc, cfg.min); }
    var P, C := Row(np, 0), Row(nc, 0)[0 := Blocked][1 := Blocked];
    run := BlockConsumer(cfg, run, 0);
    run := BlockConsumer(cfg, run, 1);
    assert C[0] == Blocked && P[0 := Idle] == P;
    run := ProduceOne(cfg, run, 0, C[0 := Woken]);
    run := ProduceOne(cfg, run, 0, C[0 := Woken]);
    run := ConsumeOne(cfg, run, 0, P);
    assert Last(run).consumers[1] == Blocked;
  }

  /** The same with two producers that wait at the maximum. */
  lemma StrandProducer(cfg: Config, np: nat, nc: nat) returns (run: seq<State>)
    requires Sensible(cfg) && cfg.rule == AtBoundary && cfg.max >= cfg.min + 2 && np >= 2 && nc > 0
    ensures Run(cfg, run) && |Last(run).producers| == np && |Last(run).consumers| == nc && Stranded(cfg, Last(run))
  {
    run := FillUp(cfg, np, nc, cfg.max);
    var P, C := Row(np, 0)[0 := Blocked][1 := Blocked], Row(nc, 0);
    run := BlockProducer(cfg, run, 0);
    run := BlockProducer(cfg, run, 1);
    assert P[0] == Blocked && C[0 := Idle] == C;
    run := ConsumeOne(cfg, run, 0, P[0 := Woken]);
    run := ConsumeOne(cfg, run, 0, P[0 := Woken]);
    run := ProduceOne(cfg, run, 0, C);
    assert Last(run).producers[1] == Blocked;
  }

  ghost predicate CanLose(cfg: Config, np: nat, nc: nat) {
    exists run, k :: Within(cfg, run, k, np, nc) && !NoLostWakeup(cfg, run[k])
  }

  ghost predicate CanStrand(cfg: Config, np: nat, nc: nat) {
    exists run, k :: Within(cfg, run, k, np, nc) && Stranded(cfg, run[k])
  }

  lemma RunLosesNone(cfg: Config, run: seq<State>, k: nat, np: nat, nc: nat)
    requires Within(cfg, run, k, np, nc) && (SignalsSuffice(cfg) || np == nc == 1)
    ensures NoLostWakeup(cfg, run[k])
  {
    RunKeepsGuarded(cfg, run, k);
    if np == nc == 1 {
      PairRun(cfg, run, k);
      PairLosesNone(cfg, run[k]);
    }
  }

  /** Wakeups are lost exactly by signalling at the boundaries only, with two or more threads on
      one side and at least two units of room; and then a thread can be left stranded. */
  lemma WakeupLostExactlyWhen(cfg: Config, np: nat, nc: nat)
    requires Sensible(cfg) && np > 0 && nc > 0
    ensures CanLose(cfg, np, nc) <==> cfg.rule == AtBoundary && cfg.max >= cfg.min + 2 && (np >= 2 || nc >= 2)
    ensures CanStrand(cfg, np, nc) <==> CanLose(cfg, np, nc)
  {
    hide Stranded, NoLostWakeup;
    if cfg.rule == AtBoundary && cfg.max >= cfg.min + 2 && (np >= 2 || nc >= 2) {
      var run;
      if nc >= 2 { run := StrandConsumer(cfg, np, nc); } else { run := StrandProducer(cfg, np, nc); }
      assert Within(cfg, run, |run| - 1, np, nc);
    }
    if run, k :| Within(cfg, run, k, np, nc) && Stranded(cfg, run[k]) {
      RunKeepsGuarded(cfg, run, k);
      StrandedIsLost(cfg, run[k]);
    }
    if run, k :| Within(cfg, run, k, np, nc) && !NoLostWakeup(cfg, run[k]) {
      if SignalsSuffice(cfg) || np == nc == 1 { RunLosesNone(cfg, run, k, np, nc); }
    }
  }

  /** The program that starts any number of threads with 5 units, bounds 0 and 10, and signals at
      the boundaries only. */
  const Exercise: Config := Config(0, 10, 5, AtBoundary)

  lemma ExerciseStrandsThreads(np: nat, nc: nat)
    requires np > 0 && nc > 0
    ensures CanStrand(Exercise, np, nc) <==> np >= 2 || nc >= 2
    ensures !CanBlockAll(Exercise, np, nc)
  {
    WakeupLostExactlyWhen(Exercise, np, nc);
    DeadlockExactlyWhen(Exercise, np, nc);
  }
}

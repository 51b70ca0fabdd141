/** The shared ring buffer guarded by three semaphores, for any number of producer and
    consumer processes, any interleaving of their steps, and any buffer size. */
module RingBuffer {
  import opened Tally

  // ---------- Processes and state ----------

  /** Next action of a producer; the value is chosen before the first wait. */
  datatype Producer =
    | Choosing                 // wait(empty)
    | Ticketed(value: int)     // wait(mutex)
    | Inside(value: int)       // buffer[in] := value
    | Written                  // in := in + 1 mod K
    | Advanced                 // post(mutex)
    | Released                 // post(full)

  /** Next action of a consumer. */
  datatype Consumer =
    | Idle                     // wait(full)
    | Claimed                  // wait(mutex)
    | Entered                  // value := buffer[out]
    | Fetched(value: int)      // out := out + 1 mod K
    | Moved                    // post(mutex)
    | Left                     // post(empty)

  /** `produced` and `consumed` record the values written and read, in order. */
  datatype State = State(
    buffer: seq<int>, in_: int, out: int, full: int, empty: int, mutex: int,
    producers: seq<Producer>, consumers: seq<Consumer>,
    produced: seq<int>, consumed: seq<int>)

  ghost predicate Init(s: State, K: int) {
    && K >= 1 && |s.buffer| == K && s.in_ == 0 && s.out == 0
    && s.full == 0 && s.empty == K && s.mutex == 1
    && (forall i :: 0 <= i < |s.producers| ==> s.producers[i] == Choosing)
    && (forall i :: 0 <= i < |s.consumers| ==> s.consumers[i] == Idle)
    && s.produced == [] && s.consumed == []
  }

  // ---------- Steps ----------

  ghost predicate ProducerStep(s: State, s': State, i: int, v: int) {
    && 0 <= i < |s.producers|
    && match s.producers[i]
       case Choosing => s.empty > 0 && s' == s.(empty := s.empty - 1, producers := s.producers[i := Ticketed(v)])
       case Ticketed(x) => s.mutex > 0 && s' == s.(mutex := s.mutex - 1, producers := s.producers[i := Inside(x)])
       case Inside(x) =>
         && 0 <= s.in_ < |s.buffer|
         && s' == s.(buffer := s.buffer[s.in_ := x], produced := s.produced + [x],
             producers := s.producers[i := Written])
       case Written =>
         && |s.buffer| > 0
         && s' == s.(in_ := (s.in_ + 1) % |s.buffer|, producers := s.producers[i := Advanced])
       case Advanced => s' == s.(mutex := s.mutex + 1, producers := s.producers[i := Released])
       case Released => s' == s.(full := s.full + 1, producers := s.producers[i := Choosing])
  }

  ghost predicate ConsumerStep(s: State, s': State, i: int) {
    && 0 <= i < |s.consumers|
    && match s.consumers[i]
       case Idle => s.full > 0 && s' == s.(full := s.full - 1, consumers := s.consumers[i := Claimed])
       case Claimed => s.mutex > 0 && s' == s.(mutex := s.mutex - 1, consumers := s.consumers[i := Entered])
       case Entered =>
         && 0 <= s.out < |s.buffer|
         && s' == s.(consumed := s.consumed + [s.buffer[s.out]],
             consumers := s.consumers[i := Fetched(s.buffer[s.out])])
       case Fetched(_) =>
         && |s.buffer| > 0
         && s' == s.(out := (s.out + 1) % |s.buffer|, consumers := s.consumers[i := Moved])
       case Moved => s' == s.(mutex := s.mutex + 1, consumers := s.consumers[i := Left])
       case Left => s' == s.(empty := s.empty + 1, consumers := s.consumers[i := Idle])
  }

  ghost predicate Step(s: State, s': State) {
    || (exists i, v :: ProducerStep(s, s', i, v))
    || (exists i :: ConsumerStep(s, s', i))
  }

  /** A run: any interleaving from the initial state. */
  ghost predicate Run(run: seq<State>, K: int) {
    && run != [] && Init(run[0], K)
    && forall i :: 0 <= i < |run| - 1 ==> Step(run[i], run[i+1])
  }

  // ---------- Where processes stand ----------

  predicate PInside(p: Producer) { p.Inside? || p.Written? || p.Advanced? }
  predicate PTicket(p: Producer) { !p.Choosing? }
  predicate PStored(p: Producer) { p.Written? || p.Advanced? || p.Released? }
  predicate PWaiting(p: Producer) { p.Ticketed? || p.Inside? }
  predicate PWritten(p: Producer) { p.Written? }
  predicate CInside(c: Consumer) { c.Entered? || c.Fetched? || c.Moved? }
  predicate CTicket(c: Consumer) { !c.Idle? }
  predicate CClaiming(c: Consumer) { c.Claimed? || c.Entered? }
  predicate CFetched(c: Consumer) { c.Fetched? }

  // ---------- Invariant ----------

  ghost predicate Exclusive(s: State) {
    s.mutex >= 0 && s.mutex + Count(s.producers, PInside) + Count(s.consumers, CInside) == 1
  }

  /** Full and empty slots and the tickets in flight always add up to the buffer size. */
  ghost predicate Tickets(s: State) {
    && s.full >= 0 && s.empty >= 0
    && s.full + s.empty + Count(s.producers, PTicket) + Count(s.consumers, CTicket) == |s.buffer|
  }

  /** Unread values are announced, about to be announced, or already claimed. */
  ghost predicate Unread(s: State) {
    && |s.produced| - |s.consumed| == s.full + Count(s.producers, PStored) + Count(s.consumers, CClaiming)
  }

  ghost function Slot(n: int, K: int): int
    requires K >= 1
  {
    n % K
  }

  ghost predicate Cursors(s: State) {
    && |s.buffer| >= 1
    && |s.produced| >= Count(s.producers, PWritten) && |s.consumed| >= Count(s.consumers, CFetched)
    && s.in_ == Slot(|s.produced| - Count(s.producers, PWritten), |s.buffer|)
    && s.out == Slot(|s.consumed| - Count(s.consumers, CFetched), |s.buffer|)
  }

  ghost predicate Contents(s: State) {
    && |s.buffer| >= 1 && s.consumed <= s.produced
    && (forall n :: 0 <= Slot(n, |s.buffer|) < |s.buffer|)
    && forall n {:trigger s.produced[n]} :: |s.consumed| <= n < |s.produced| ==>
        s.buffer[Slot(n, |s.buffer|)] == s.produced[n]
  }

  ghost predicate Inv(s: State, K: int) {
    K == |s.buffer| && Exclusive(s) && Tickets(s) && Unread(s) && Cursors(s) && Contents(s)
  }

  // ---------- Slots ----------

  lemma SlotNext(n: int, K: int)
    requires K >= 1 && 0 <= n
    ensures (Slot(n, K) + 1) % K == Slot(n + 1, K)
  {
    var q, r := n / K, n % K;
    assert n == q * K + r;
    if r + 1 < K {
      assert n + 1 == q * K + (r + 1);
      ModUnique(n + 1, K, q, r + 1);
      ModUnique(r + 1, K, 0, r + 1);
    } else {
      assert n + 1 == (q + 1) * K;
      ModUnique(n + 1, K, q + 1, 0);
      ModUnique(K, K, 1, 0);
    }
  }

  lemma ModUnique(n: int, K: int, q: int, r: int)
    requires K >= 1 && n == q * K + r && 0 <= r < K
    ensures n % K == r
  {
    var d := n / K - q;
    assert n % K == r - d * K;
    assert d >= 1 ==> d * K >= K;
    assert d <= -1 ==> d * K <= -K;
  }

  lemma EqualSlotsAreFarApart(m: int, n: int, K: int)
    requires K >= 1 && m < n && Slot(m, K) == Slot(n, K)
    ensures n - m >= K
  {
    var d := n / K - m / K;
    assert n - m == d * K;
    assert d >= 1 ==> d * K >= K;
    assert d <= 0 ==> d * K <= 0;
  }

  /** Fewer than K consecutive positions use different slots. */
  lemma SlotsDiffer(m: int, n: int, K: int)
    requires K >= 1 && m < n < m + K
    ensures Slot(m, K) != Slot(n, K)
  {
    if Slot(m, K) == Slot(n, K) { EqualSlotsAreFarApart(m, n, K); }
  }

  // ---------- Every step keeps the invariant ----------

  /** How the counts change when producer i moves to x. */
  lemma ProducerMoves(s: State, i: int, x: Producer)
    requires 0 <= i < |s.producers|
    ensures var p, t := s.producers[i], s.producers[i := x];
      && Count(t, PInside) == Count(s.producers, PInside) - One(PInside(p)) + One(PInside(x))
      && Count(t, PTicket) == Count(s.producers, PTicket) - One(PTicket(p)) + One(PTicket(x))
      && Count(t, PStored) == Count(s.producers, PStored) - One(PStored(p)) + One(PStored(x))
      && Count(t, PWritten) == Count(s.producers, PWritten) - One(PWritten(p)) + One(PWritten(x))
    ensures One(PInside(s.producers[i])) <= Count(s.producers, PInside)
    ensures One(PStored(s.producers[i])) <= Count(s.producers, PStored)
    ensures One(PWaiting(s.producers[i])) <= Count(s.producers, PWaiting)
    ensures One(PWritten(s.producers[i])) <= Count(s.producers, PWritten)
  {
    CountUpdate(s.producers, i, x, PInside);
    CountUpdate(s.producers, i, x, PTicket);
    CountUpdate(s.producers, i, x, PStored);
    CountUpdate(s.producers, i, x, PWritten);
    CountUpdate(s.producers, i, x, PWaiting);
  }

  lemma ConsumerMoves(s: State, i: int, x: Consumer)
    requires 0 <= i < |s.consumers|
    ensures var p, t := s.consumers[i], s.consumers[i := x];
      && Count(t, CInside) == Count(s.consumers, CInside) - One(CInside(p)) + One(CInside(x))
      && Count(t, CTicket) == Count(s.consumers, CTicket) - One(CTicket(p)) + One(CTicket(x))
      && Count(t, CClaiming) == Count(s.consumers, CClaiming) - One(CClaiming(p)) + One(CClaiming(x))
      && Count(t, CFetched) == Count(s.consumers, CFetched) - One(CFetched(p)) + One(CFetched(x))
    ensures One(CInside(s.consumers[i])) <= Count(s.consumers, CInside)
    ensures One(CClaiming(s.consumers[i])) <= Count(s.consumers, CClaiming)
    ensures One(CFetched(s.consumers[i])) <= Count(s.consumers, CFetched)
  {
    CountUpdate(s.consumers, i, x, CInside);
    CountUpdate(s.consumers, i, x, CTicket);
    CountUpdate(s.consumers, i, x, CClaiming);
    CountUpdate(s.consumers, i, x, CFetched);
  }

  /** Whoever is inside is alone there. */
  lemma Alone(s: State)
    requires Exclusive(s)
    ensures Count(s.producers, PWritten) <= Count(s.producers, PInside) <= 1
    ensures Count(s.consumers, CFetched) <= Count(s.consumers, CInside) <= 1
    ensures Count(s.producers, PInside) == 1 ==> Count(s.consumers, CInside) == 0
  {
    CountLess(s.producers, PWritten, PInside);
    CountLess(s.consumers, CFetched, CInside);
  }

  predicate PNotWritten(p: Producer) { p.Inside? || p.Advanced? }
  predicate CNotFetched(c: Consumer) { c.Entered? || c.Moved? }

  lemma NoOtherWriter(s: State, i: int)
    requires Exclusive(s) && 0 <= i < |s.producers| && s.producers[i].Inside?
    ensures Count(s.producers, PWritten) == 0
  {
    CountSplit(s.producers, PInside, PWritten, PNotWritten);
    CountUpdate(s.producers, i, s.producers[i], PNotWritten);
  }

  lemma NoOtherReader(s: State, i: int)
    requires Exclusive(s) && 0 <= i < |s.consumers| && s.consumers[i].Entered?
    ensures Count(s.consumers, CFetched) == 0
  {
    CountSplit(s.consumers, CInside, CFetched, CNotFetched);
    CountUpdate(s.consumers, i, s.consumers[i], CNotFetched);
  }

  /** A producer about to write finds a free slot. */
  lemma RoomToWrite(s: State, i: int)
    requires Tickets(s) && Unread(s) && 0 <= i < |s.producers| && s.producers[i].Inside?
    ensures |s.produced| - |s.consumed| < |s.buffer|
  {
    ProducerMoves(s, i, s.producers[i]);
    CountSplit(s.producers, PTicket, PStored, PWaiting);
    CountLess(s.consumers, CClaiming, CTicket);
  }

  /** A consumer about to read finds an unread value. */
  lemma ValueToRead(s: State, i: int)
    requires Tickets(s) && Unread(s) && 0 <= i < |s.consumers| && s.consumers[i].Entered?
    ensures |s.produced| > |s.consumed|
  {
    ConsumerMoves(s, i, s.consumers[i]);
  }

  lemma WriteKeepsContents(s: State, x: int)
    requires Contents(s) && |s.produced| - |s.consumed| < |s.buffer| && s.in_ == Slot(|s.produced|, |s.buffer|)
    ensures 0 <= s.in_ < |s.buffer| && Contents(s.(buffer := s.buffer[s.in_ := x], produced := s.produced + [x]))
  {
    var K, N := |s.buffer|, |s.produced|;
    var s' := s.(buffer := s.buffer[s.in_ := x], produced := s.produced + [x]);
    forall n {:trigger s'.produced[n]} | |s'.consumed| <= n < |s'.produced|
      ensures s'.buffer[Slot(n, K)] == s'.produced[n]
    {
      if n < N {
        SlotsDiffer(n, N, K);
        assert s.produced[n] == s'.produced[n];
      }
    }
  }

  lemma ReadKeepsContents(s: State)
    requires Contents(s) && |s.produced| > |s.consumed| && s.out == Slot(|s.consumed|, |s.buffer|)
    ensures 0 <= s.out < |s.buffer| && s.buffer[s.out] == s.produced[|s.consumed|]
    ensures Contents(s.(consumed := s.consumed + [s.buffer[s.out]]))
  {
    assert s.buffer[s.out] == s.produced[|s.consumed|];
  }

  lemma ProducerKeepsCounts(s: State, s': State, i: int, v: int)
    requires Inv(s, |s.buffer|) && ProducerStep(s, s', i, v)
    ensures |s'.buffer| == |s.buffer| && Exclusive(s') && Tickets(s') && Unread(s')
  {
    hide Slot, Contents, Count, Cursors;
    ProducerMoves(s, i, s'.producers[i]);
    Alone(s);
    assert s'.producers == s.producers[i := s'.producers[i]];
  }

  lemma ProducerKeepsCursors(s: State, s': State, i: int, v: int)
    requires Inv(s, |s.buffer|) && ProducerStep(s, s', i, v)
    ensures Cursors(s')
  {
    hide Slot, Contents, Count, Tickets, Unread;
    ProducerMoves(s, i, s'.producers[i]);
    Alone(s);
    assert s'.producers == s.producers[i := s'.producers[i]];
    if s.producers[i].Written? { SlotNext(|s.produced| - 1, |s.buffer|); }
  }

  lemma ProducerKeepsContents(s: State, s': State, i: int, v: int)
    requires Inv(s, |s.buffer|) && ProducerStep(s, s', i, v)
    ensures Contents(s')
  {
    hide Slot, Contents, Count;
    match s.producers[i] {
      case Inside(x) =>
        RoomToWrite(s, i);
        NoOtherWriter(s, i);
        WriteKeepsContents(s, x);
        ContentsUnchanged(s.(buffer := s.buffer[s.in_ := x], produced := s.produced + [x]), s');
      case _ =>
        ContentsUnchanged(s, s');
    }
  }

  lemma ProducerKeeps(s: State, s': State, i: int, v: int)
    requires Inv(s, |s.buffer|) && ProducerStep(s, s', i, v)
    ensures Inv(s', |s.buffer|)
  {
    ProducerKeepsCounts(s, s', i, v);
    ProducerKeepsCursors(s, s', i, v);
    ProducerKeepsContents(s, s', i, v);
  }

  lemma ContentsUnchanged(s: State, s': State)
    requires Contents(s) && s'.buffer == s.buffer && s'.produced == s.produced && s'.consumed == s.consumed
    ensures Contents(s')
  {}

  lemma ConsumerKeepsCounts(s: State, s': State, i: int)
    requires Inv(s, |s.buffer|) && ConsumerStep(s, s', i)
    ensures |s'.buffer| == |s.buffer| && Exclusive(s') && Tickets(s') && Unread(s')
  {
    hide Slot, Contents, Count, Cursors;
    ConsumerMoves(s, i, s'.consumers[i]);
    Alone(s);
    assert s'.consumers == s.consumers[i := s'.consumers[i]];
  }

  lemma ConsumerKeepsCursors(s: State, s': State, i: int)
    requires Inv(s, |s.buffer|) && ConsumerStep(s, s', i)
    ensures Cursors(s')
  {
    hide Slot, Contents, Count, Tickets, Unread;
    ConsumerMoves(s, i, s'.consumers[i]);
    Alone(s);
    assert s'.consumers == s.consumers[i := s'.consumers[i]];
    if s.consumers[i].Fetched? { SlotNext(|s.consumed| - 1, |s.buffer|); }
  }

  lemma ConsumerKeepsContents(s: State, s': State, i: int)
    requires Inv(s, |s.buffer|) && ConsumerStep(s, s', i)
    ensures Contents(s')
  {
    hide Slot, Contents, Count;
    if s.consumers[i].Entered? {
      ValueToRead(s, i);
      NoOtherReader(s, i);
      ReadKeepsContents(s);
      ContentsUnchanged(s.(consumed := s.consumed + [s.buffer[s.out]]), s');
    } else {
      ContentsUnchanged(s, s');
    }
  }

  lemma ConsumerKeeps(s: State, s': State, i: int)
    requires Inv(s, |s.buffer|) && ConsumerStep(s, s', i)
    ensures Inv(s', |s.buffer|)
  {
    ConsumerKeepsCounts(s, s', i);
    ConsumerKeepsCursors(s, s', i);
    ConsumerKeepsContents(s, s', i);
  }

  lemma InitHolds(s: State, K: int)
    requires Init(s, K)
    ensures Inv(s, K)
  {
    CountNone(s.producers, PInside);
    CountNone(s.producers, PTicket);
    CountNone(s.producers, PStored);
    CountNone(s.producers, PWritten);
    CountNone(s.consumers, CInside);
    CountNone(s.consumers, CTicket);
    CountNone(s.consumers, CClaiming);
    CountNone(s.consumers, CFetched);
    forall n ensures 0 <= Slot(n, K) < K {}
  }

  lemma {:induction false} RunKeepsInv(run: seq<State>, K: int, i: nat)
    requires Run(run, K) && i < |run|
    ensures Inv(run[i], K)
  {
    hide Inv, Init, ProducerStep, ConsumerStep;
    if i == 0 {
      InitHolds(run[0], K);
    } else {
      RunKeepsInv(run, K, i - 1);
      var s, s' := run[i-1], run[i];
      InvSize(s, K);
      assert Step(run[i-1], run[i-1+1]);
      if p, v :| ProducerStep(s, s', p, v) {
        ProducerKeeps(s, s', p, v);
      } else {
        var c :| ConsumerStep(s, s', c);
        ConsumerKeeps(s, s', c);
      }
    }
  }

  lemma InvSize(s: State, K: int)
    requires Inv(s, K)
    ensures K == |s.buffer|
  {}

  // ---------- What every run guarantees ----------

  /** The unread values as they lie in the ring, oldest first. */
  ghost function Live(s: State): seq<int>
    requires |s.buffer| >= 1 && |s.consumed| <= |s.produced|
    requires forall n :: 0 <= Slot(n, |s.buffer|) < |s.buffer|
  {
    seq(|s.produced| - |s.consumed|, d requires 0 <= d => s.buffer[Slot(|s.consumed| + d, |s.buffer|)])
  }

  /** Values arrive in order, none lost, none twice: what was consumed, followed by what lies in
      the ring, is what was produced. At most K values lie there, at most one process is between
      the mutex operations, and the semaphores account for every slot. */
  ghost predicate Safe(s: State, K: int) {
    && |s.buffer| == K >= 1 && |s.consumed| <= |s.produced| <= |s.consumed| + K
    && (forall n :: 0 <= Slot(n, K) < K)
    && s.consumed + Live(s) == s.produced
    && Count(s.producers, PInside) + Count(s.consumers, CInside) <= 1
    && s.full + s.empty + Count(s.producers, PTicket) + Count(s.consumers, CTicket) == K
  }

  lemma InvIsSafe(s: State, K: int)
    requires Inv(s, K)
    ensures Safe(s, K)
  {
    hide Slot, Count;
    CountLess(s.consumers, CClaiming, CTicket);
    CountLess(s.producers, PStored, PTicket);
    assert s.consumed + Live(s) == s.produced by {
      forall d | 0 <= d < |s.produced| - |s.consumed| ensures Live(s)[d] == s.produced[|s.consumed| + d] {
        assert s.produced[|s.consumed| + d] == s.produced[|s.consumed| + d];
      }
    }
  }

  lemma EveryRunIsSafe(run: seq<State>, K: int, i: nat)
    requires Run(run, K) && i < |run|
    ensures Safe(run[i], K)
  {
    RunKeepsInv(run, K, i);
    InvIsSafe(run[i], K);
  }

  /** In no run does a producer overwrite a value that was not read yet. */
  lemma NoUnreadOverwritten(run: seq<State>, K: int, i: nat, p: int, n: int)
    requires Run(run, K) && i < |run| && 0 <= p < |run[i].producers| && run[i].producers[p].Inside?
    requires |run[i].consumed| <= n < |run[i].produced|
    ensures |run[i].buffer| == K >= 1 && run[i].in_ != Slot(n, K)
  {
    hide Slot, Count;
    var s := run[i];
    RunKeepsInv(run, K, i);
    RoomToWrite(s, p);
    NoOtherWriter(s, p);
    SlotsDiffer(n, |s.produced|, K);
  }

  /** In no run does a consumer read a slot that was not written, and it gets the oldest value. */
  lemma OnlyWrittenRead(run: seq<State>, K: int, i: nat, c: int)
    requires Run(run, K) && i < |run| && 0 <= c < |run[i].consumers| && run[i].consumers[c].Entered?
    ensures |run[i].consumed| < |run[i].produced| && 0 <= run[i].out < |run[i].buffer|
    ensures run[i].buffer[run[i].out] == run[i].produced[|run[i].consumed|]
  {
    hide Slot, Count;
    var s := run[i];
    RunKeepsInv(run, K, i);
    ValueToRead(s, c);
    NoOtherReader(s, c);
    ReadKeepsContents(s);
  }

  // ---------- What is delivered is what was chosen ----------

  /** The value that producer i chooses in this step. */
  ghost function Chooses(s: State, s': State, i: int): seq<int> {
    if 0 <= i < |s.producers| && i < |s'.producers| && s.producers[i].Choosing? && s'.producers[i].Ticketed?
    then [s'.producers[i].value] else []
  }

  /** The value with which producer i stood before the slot that it writes in this step. */
  ghost function Stores(s: State, s': State, i: int): seq<int> {
    if 0 <= i < |s.producers| && i < |s'.producers| && s.producers[i].Inside? && s'.producers[i].Written?
    then [s.producers[i].value] else []
  }

  /** The value that consumer i holds after this step in which it fetches one. */
  ghost function Fetches(s: State, s': State, i: int): seq<int> {
    if 0 <= i < |s.consumers| && i < |s'.consumers| && s.consumers[i].Entered? && s'.consumers[i].Fetched?
    then [s'.consumers[i].value] else []
  }

  /** What the processes 0..n-1 contribute to a step. */
  ghost function OfAll(s: State, s': State, f: (State, State, int) -> seq<int>, n: nat): seq<int> {
    if n == 0 then [] else OfAll(s, s', f, n - 1) + f(s, s', n - 1)
  }

  /** What process i contributes along the run, in order. */
  ghost function Along(run: seq<State>, f: (State, State, int) -> seq<int>, i: int): seq<int> {
    if |run| <= 1 then []
    else Along(run[..|run| - 1], f, i) + f(run[|run| - 2], run[|run| - 1], i)
  }

  /** What n processes contribute along the run, in order. */
  ghost function AllAlong(run: seq<State>, f: (State, State, int) -> seq<int>, n: nat): seq<int> {
    if |run| <= 1 then []
    else AllAlong(run[..|run| - 1], f, n) + OfAll(run[|run| - 2], run[|run| - 1], f, n)
  }

  lemma {:induction false} OnlyOne(s: State, s': State, f: (State, State, int) -> seq<int>, n: nat, i: int)
    requires forall j :: 0 <= j < n && j != i ==> f(s, s', j) == []
    ensures OfAll(s, s', f, n) == if 0 <= i < n then f(s, s', i) else []
  {
    if n > 0 { OnlyOne(s, s', f, n - 1, i); }
  }

  /** The value a producer has chosen and not yet written. */
  ghost function Pending(p: Producer): seq<int> {
    match p
    case Ticketed(x) => [x]
    case Inside(x) => [x]
    case _ => []
  }

  ghost function AllPending(producers: seq<Producer>): multiset<int> {
    if producers == [] then multiset{}
    else AllPending(producers[..|producers| - 1]) + multiset(Pending(producers[|producers| - 1]))
  }

  lemma PendingUnfolds(producers: seq<Producer>)
    requires producers != []
    ensures AllPending(producers)
            == AllPending(producers[..|producers| - 1]) + multiset(Pending(producers[|producers| - 1]))
  {}

  lemma Exchange(a: multiset<int>, b: multiset<int>, c: multiset<int>, d: multiset<int>, e: multiset<int>)
    requires a + b == c + d
    ensures (a + e) + b == (c + e) + d
  {
    assert (a + e) + b == (a + b) + e;
    assert (c + e) + d == (c + d) + e;
  }

  lemma {:induction false} PendingUpdate(producers: seq<Producer>, i: nat, x: Producer)
    requires i < |producers|
    ensures AllPending(producers[i := x]) + multiset(Pending(producers[i]))
            == AllPending(producers) + multiset(Pending(x))
  {
    hide AllPending, Pending;
    var n := |producers| - 1;
    var init, last := producers[..n], multiset(Pending(producers[n]));
    PendingUnfolds(producers);
    PendingUnfolds(producers[i := x]);
    if i == n {
      assert producers[i := x][..n] == init;
      Exchange(multiset(Pending(x)), last, last, multiset(Pending(x)), AllPending(init));
    } else {
      assert producers[i := x][..n] == init[i := x];
      PendingUpdate(init, i, x);
      Exchange(AllPending(init[i := x]), multiset(Pending(producers[i])), AllPending(init), multiset(Pending(x)), last);
    }
  }

  /** One step: a choice becomes pending, a pending value is stored, and the histories record
      exactly what was stored and fetched. */
  ghost predicate StepDelivers(s: State, s': State) {
    && |s'.producers| == |s.producers| && |s'.consumers| == |s.consumers|
    && s'.produced == s.produced + OfAll(s, s', Stores, |s.producers|)
    && s'.consumed == s.consumed + OfAll(s, s', Fetches, |s.consumers|)
    && multiset(OfAll(s, s', Chooses, |s.producers|)) + AllPending(s.producers)
       == multiset(OfAll(s, s', Stores, |s.producers|)) + AllPending(s'.producers)
    && forall i :: 0 <= i < |s.producers| ==> StoresOrKeeps(s, s', i)
  }

  /** What producer i had pending and what it chooses is what it stores and what is pending now. */
  ghost predicate StoresOrKeeps(s: State, s': State, i: int)
    requires 0 <= i < |s.producers| == |s'.producers|
  {
    Pending(s.producers[i]) + Chooses(s, s', i) == Stores(s, s', i) + Pending(s'.producers[i])
  }

  /** A producer step concerns no other process. */
  lemma ProducerAlone(s: State, s': State, i: int, v: int)
    requires ProducerStep(s, s', i, v)
    ensures forall j :: j != i ==> Chooses(s, s', j) == [] && Stores(s, s', j) == []
    ensures forall j :: Fetches(s, s', j) == []
    ensures |s'.producers| == |s.producers| && forall j :: 0 <= j < |s.producers| ==> StoresOrKeeps(s, s', j)
    ensures s'.producers == s.producers[i := s'.producers[i]] && |s'.consumers| == |s.consumers|
    ensures s'.produced == s.produced + Stores(s, s', i) && s'.consumed == s.consumed + []
  {}

  lemma ProducerDelivers(s: State, s': State, i: int, v: int)
    requires ProducerStep(s, s', i, v)
    ensures StepDelivers(s, s')
  {
    ProducerAlone(s, s', i, v);
    assert 0 <= i < |s.producers| && StoresOrKeeps(s, s', i);
    assert Pending(s.producers[i]) + Chooses(s, s', i) == Stores(s, s', i) + Pending(s'.producers[i]);
    hide OfAll, AllPending, Chooses, Stores, Fetches, Pending, ProducerStep, StoresOrKeeps;
    OnlyOne(s, s', Chooses, |s.producers|, i);
    OnlyOne(s, s', Stores, |s.producers|, i);
    OnlyOne(s, s', Fetches, |s.consumers|, -1);
    PendingMoves(Chooses(s, s', i), Stores(s, s', i), s.producers, i, s'.producers[i]);
  }

  lemma PendingMoves(c: seq<int>, w: seq<int>, producers: seq<Producer>, i: int, x: Producer)
    requires 0 <= i < |producers| && Pending(producers[i]) + c == w + Pending(x)
    ensures multiset(c) + AllPending(producers) == multiset(w) + AllPending(producers[i := x])
  {
    hide AllPending, Pending;
    PendingUpdate(producers, i, x);
    var P, Q := multiset(Pending(producers[i])), multiset(Pending(x));
    assert multiset(Pending(producers[i]) + c) == P + multiset(c);
    assert multiset(w + Pending(x)) == multiset(w) + Q;
    Balance(multiset(c), multiset(w), P, Q, AllPending(producers), AllPending(producers[i := x]));
  }

  lemma Balance(c: multiset<int>, w: multiset<int>, P: multiset<int>, Q: multiset<int>, a: multiset<int>,
                a': multiset<int>)
    requires P + c == w + Q && a' + P == a + Q
    ensures c + a == w + a'
  {
    forall v ensures (c + a)[v] == (w + a')[v] {
      assert (P + c)[v] == (w + Q)[v] && (a' + P)[v] == (a + Q)[v];
    }
  }

  lemma ConsumerAlone(s: State, s': State, i: int)
    requires ConsumerStep(s, s', i)
    ensures forall j :: Chooses(s, s', j) == [] && Stores(s, s', j) == []
    ensures forall j :: j != i ==> Fetches(s, s', j) == []
    ensures forall j :: 0 <= j < |s.producers| == |s'.producers| ==> StoresOrKeeps(s, s', j)
    ensures s'.producers == s.producers && |s'.consumers| == |s.consumers|
    ensures s'.produced == s.produced && s'.consumed == s.consumed + Fetches(s, s', i)
  {}

  lemma ConsumerDelivers(s: State, s': State, i: int)
    requires ConsumerStep(s, s', i)
    ensures StepDelivers(s, s')
  {
    ConsumerAlone(s, s', i);
    assert 0 <= i < |s.consumers|;
    hide OfAll, AllPending, Chooses, Stores, Fetches, Pending, ConsumerStep, StoresOrKeeps;
    OnlyOne(s, s', Chooses, |s.producers|, -1);
    OnlyOne(s, s', Stores, |s.producers|, -1);
    OnlyOne(s, s', Fetches, |s.consumers|, i);
  }

  /** In every run the consumers get, in this order, values that producers stored, and every value
      a producer chose is stored once, in the order of its choices, or still pending. */
  ghost predicate Delivered(run: seq<State>)
    requires run != []
  {
    var s := run[|run| - 1];
    && s.produced == AllAlong(run, Stores, |s.producers|)
    && s.consumed == AllAlong(run, Fetches, |s.consumers|)
    && multiset(AllAlong(run, Chooses, |s.producers|)) == multiset(s.produced) + AllPending(s.producers)
    && (forall i :: 0 <= i < |s.producers| ==>
          Along(run, Chooses, i) == Along(run, Stores, i) + Pending(s.producers[i]))
  }

  lemma {:induction false} ValuesAreDelivered(run: seq<State>, K: int)
    requires Run(run, K)
    ensures Delivered(run)
  {
    if |run| == 1 {
      NothingPending(run[0].producers);
    } else {
      var before := run[..|run| - 1];
      var s, s' := run[|run| - 2], run[|run| - 1];
      assert Run(before, K);
      assert Step(run[|run| - 2], run[|run| - 2 + 1]);
      ValuesAreDelivered(before, K);
      hide Run, Stores, Fetches, Chooses, OfAll, AllPending, Pending;
      if p, v :| ProducerStep(s, s', p, v) {
        ProducerDelivers(s, s', p, v);
      } else {
        var c :| ConsumerStep(s, s', c);
        ConsumerDelivers(s, s', c);
      }
      hide Step;
      DeliversOn(run);
    }
  }

  lemma AlongNext(run: seq<State>, f: (State, State, int) -> seq<int>, i: int, n: nat)
    requires |run| >= 2
    ensures Along(run, f, i) == Along(run[..|run| - 1], f, i) + f(run[|run| - 2], run[|run| - 1], i)
    ensures AllAlong(run, f, n) == AllAlong(run[..|run| - 1], f, n) + OfAll(run[|run| - 2], run[|run| - 1], f, n)
  {}

  lemma DeliversOn(run: seq<State>)
    requires |run| >= 2 && Delivered(run[..|run| - 1]) && StepDelivers(run[|run| - 2], run[|run| - 1])
    ensures Delivered(run)
  {
    hide OfAll, AllPending, Pending, Along, AllAlong;
    var before, s, s' := run[..|run| - 1], run[|run| - 2], run[|run| - 1];
    var n := |s'.producers|;
    assert before[|before| - 1] == s;
    AlongNext(run, Stores, 0, n);
    AlongNext(run, Chooses, 0, n);
    AlongNext(run, Fetches, 0, |s'.consumers|);
    forall i | 0 <= i < n
      ensures Along(run, Chooses, i) == Along(run, Stores, i) + Pending(s'.producers[i])
    {
      AlongNext(run, Chooses, i, n);
      AlongNext(run, Stores, i, n);
      assert StoresOrKeeps(s, s', i);
      Regroup(Along(before, Stores, i), Pending(s.producers[i]), Chooses(s, s', i), Stores(s, s', i),
              Pending(s'.producers[i]));
    }
    var made, kept := OfAll(s, s', Chooses, n), OfAll(s, s', Stores, n);
    assert multiset(AllAlong(before, Chooses, n) + made) == multiset(AllAlong(before, Chooses, n)) + multiset(made);
    assert multiset(s.produced + kept) == multiset(s.produced) + multiset(kept);
    Carry(multiset(AllAlong(before, Chooses, n)), multiset(s.produced), AllPending(s.producers), multiset(made),
          multiset(kept), AllPending(s'.producers));
  }

  lemma Carry(x: multiset<int>, y: multiset<int>, P: multiset<int>, m: multiset<int>, k: multiset<int>,
              P': multiset<int>)
    requires x == y + P && m + P == k + P'
    ensures x + m == (y + k) + P'
  {
    assert x + m == y + (m + P);
  }

  lemma Regroup(a: seq<int>, b: seq<int>, c: seq<int>, d: seq<int>, e: seq<int>)
    requires b + c == d + e
    ensures (a + b) + c == (a + d) + e
  {
    assert (a + b) + c == a + (b + c);
    assert (a + d) + e == a + (d + e);
  }

  lemma {:induction false} NothingPending(producers: seq<Producer>)
    requires forall i :: 0 <= i < |producers| ==> producers[i] == Choosing
    ensures AllPending(producers) == multiset{}
  {
    if producers != [] {
      NothingPending(producers[..|producers| - 1]);
    }
  }

  /** A value held by a consumer was consumed in this step or held before it. */
  lemma FetchedOrHeld(s: State, s': State, c: int)
    requires Exclusive(s) && Step(s, s') && 0 <= c < |s'.consumers| && s'.consumers[c].Fetched?
    ensures || s'.consumed == s.consumed + [s'.consumers[c].value]
            || (s'.consumed == s.consumed && c < |s.consumers| && s'.consumers[c] == s.consumers[c])
  {
    hide Exclusive, Count;
    if i :| ConsumerStep(s, s', i) && s.consumers[i].Entered? && i != c {
      NoOtherReader(s, i);
      NotCounted(s.consumers, CFetched, c);
    }
  }

  /** A consumer that has fetched a value holds the one consumed last. */
  lemma {:induction false} FetchedIsLast(run: seq<State>, K: int, k: nat, c: int)
    requires Run(run, K) && k < |run| && 0 <= c < |run[k].consumers| && run[k].consumers[c].Fetched?
    ensures run[k].consumed != [] && run[k].consumers[c].value == run[k].consumed[|run[k].consumed| - 1]
  {
    hide Step;
    assert Init(run[0], K);
    assert Step(run[k-1], run[k-1+1]);
    RunKeepsInv(run, K, k - 1);
    var s, s' := run[k-1], run[k];
    assert Exclusive(s);
    hide Inv, Exclusive, Init;
    FetchedOrHeld(s, s', c);
    if s'.consumed == s.consumed { FetchedIsLast(run, K, k - 1, c); }
  }

  // ---------- No deadlock ----------

  /** A producer that need not wait can go on, and at its choice with any value v. */
  lemma ProducerCanStep(s: State, i: int, v: int) returns (s': State)
    requires Cursors(s) && 0 <= i < |s.producers|
    requires s.producers[i].Choosing? ==> s.empty > 0
    requires s.producers[i].Ticketed? ==> s.mutex > 0
    ensures Step(s, s') && (s.producers[i].Choosing? ==> s'.producers == s.producers[i := Ticketed(v)])
  {
    var t := match s.producers[i]
      case Choosing => s.(empty := s.empty - 1, producers := s.producers[i := Ticketed(v)])
      case Ticketed(x) => s.(mutex := s.mutex - 1, producers := s.producers[i := Inside(x)])
      case Inside(x) =>
        s.(buffer := s.buffer[s.in_ := x], produced := s.produced + [x], producers := s.producers[i := Written])
      case Written => s.(in_ := (s.in_ + 1) % |s.buffer|, producers := s.producers[i := Advanced])
      case Advanced => s.(mutex := s.mutex + 1, producers := s.producers[i := Released])
      case Released => s.(full := s.full + 1, producers := s.producers[i := Choosing]);
    s' := t;
    assert ProducerStep(s, s', i, v);
  }

  lemma ConsumerCanStep(s: State, i: int) returns (s': State)
    requires Cursors(s) && 0 <= i < |s.consumers|
    requires s.consumers[i].Idle? ==> s.full > 0
    requires s.consumers[i].Claimed? ==> s.mutex > 0
    ensures Step(s, s')
  {
    var t := match s.consumers[i]
      case Idle => s.(full := s.full - 1, consumers := s.consumers[i := Claimed])
      case Claimed => s.(mutex := s.mutex - 1, consumers := s.consumers[i := Entered])
      case Entered =>
        s.(consumed := s.consumed + [s.buffer[s.out]], consumers := s.consumers[i := Fetched(s.buffer[s.out])])
      case Fetched(_) => s.(out := (s.out + 1) % |s.buffer|, consumers := s.consumers[i := Moved])
      case Moved => s.(mutex := s.mutex + 1, consumers := s.consumers[i := Left])
      case Left => s.(empty := s.empty + 1, consumers := s.consumers[i := Idle]);
    s' := t;
    assert ConsumerStep(s, s', i);
  }

  /** With a producer and a consumer around, some process can always take a step. */
  lemma SomeoneCanStep(run: seq<State>, K: int, i: nat) returns (s': State)
    requires Run(run, K) && i < |run| && |run[i].producers| > 0 && |run[i].consumers| > 0
    ensures Step(run[i], s')
  {
    hide Step, Slot;
    var s := run[i];
    RunKeepsInv(run, K, i);
    if Count(s.producers, PInside) > 0 {
      var p := CountSome(s.producers, PInside);
      s' := ProducerCanStep(s, p, 0);
    } else if Count(s.consumers, CInside) > 0 {
      var c := CountSome(s.consumers, CInside);
      s' := ConsumerCanStep(s, c);
    } else if Count(s.producers, PTicket) > 0 {
      var p := CountSome(s.producers, PTicket);
      s' := ProducerCanStep(s, p, 0);
    } else if Count(s.consumers, CTicket) > 0 {
      var c := CountSome(s.consumers, CTicket);
      s' := ConsumerCanStep(s, c);
    } else if s.empty > 0 {
      NotCounted(s.producers, PTicket, 0);
      s' := ProducerCanStep(s, 0, 0);
    } else {
      NotCounted(s.consumers, CTicket, 0);
      s' := ConsumerCanStep(s, 0);
    }
  }
}

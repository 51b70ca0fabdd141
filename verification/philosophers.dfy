/** Dining philosophers with the odd/even order of picking up chopsticks, for any number N >= 2
    of philosophers and any interleaving. */
module Philosophers {

  // ---------- State and steps ----------

  /** Next action of a philosopher. */
  datatype Phase =
    | Hungry    // wait for the first chopstick
    | OneHeld   // wait for the second chopstick
    | Eating    // post chopstick id
    | OneLeft   // post chopstick id + 1

  datatype State = State(phase: seq<Phase>, chopstick: seq<int>)

  function Right(i: int, N: int): int
    requires 0 <= i < N
  {
    (i + 1) % N
  }

  /** Even philosophers take the right chopstick first, odd ones the left. */
  function First(i: int, N: int): int
    requires 0 <= i < N
  {
    if i % 2 == 0 then Right(i, N) else i
  }

  function Second(i: int, N: int): int
    requires 0 <= i < N
  {
    if i % 2 == 0 then i else Right(i, N)
  }

  ghost predicate Init(s: State, N: int) {
    && N >= 2 && |s.phase| == |s.chopstick| == N
    && forall i :: 0 <= i < N ==> s.phase[i] == Hungry && s.chopstick[i] == 1
  }

  /** sem_wait on chopstick c. */
  ghost predicate Take(s: State, s': State, i: int, c: int, next: Phase)
    requires 0 <= i < |s.phase| && 0 <= c < |s.chopstick|
  {
    s.chopstick[c] > 0 && s' == State(s.phase[i := next], s.chopstick[c := s.chopstick[c] - 1])
  }

  /** sem_post on chopstick c. */
  ghost predicate Put(s: State, s': State, i: int, c: int, next: Phase)
    requires 0 <= i < |s.phase| && 0 <= c < |s.chopstick|
  {
    s' == State(s.phase[i := next], s.chopstick[c := s.chopstick[c] + 1])
  }

  ghost predicate PhilosopherStep(s: State, s': State, i: int) {
    && 0 <= i < |s.phase| == |s.chopstick|
    && match s.phase[i]
       case Hungry => Take(s, s', i, First(i, |s.phase|), OneHeld)
       case OneHeld => Take(s, s', i, Second(i, |s.phase|), Eating)
       case Eating => Put(s, s', i, i, OneLeft)
       case OneLeft => Put(s, s', i, Right(i, |s.phase|), Hungry)
  }

  ghost predicate Step(s: State, s': State) {
    exists i :: PhilosopherStep(s, s', i)
  }

  ghost predicate Run(run: seq<State>, N: int) {
    && run != [] && Init(run[0], N)
    && forall k :: 0 <= k < |run| - 1 ==> Step(run[k], run[k+1])
  }

  // ---------- Who holds what ----------

  ghost predicate Holds(s: State, i: int, c: int)
    requires 0 <= i < |s.phase|
  {
    match s.phase[i]
    case Hungry => false
    case OneHeld => c == First(i, |s.phase|)
    case Eating => c == i || c == Right(i, |s.phase|)
    case OneLeft => c == Right(i, |s.phase|)
  }

  /** The two philosophers that can reach chopstick c: c itself and its left neighbour. */
  function Left(c: int, N: int): int
    requires 0 <= c < N
  {
    if c == 0 then N - 1 else c - 1
  }

  ghost function Held(b: bool): int { if b then 1 else 0 }

  /** Each chopstick is free or held by exactly one of its two neighbours. */
  ghost predicate Inv(s: State, N: int) {
    && N >= 2 && |s.phase| == |s.chopstick| == N
    && forall c {:trigger s.chopstick[c]} :: 0 <= c < N ==>
         s.chopstick[c] >= 0 && s.chopstick[c] + Held(Holds(s, c, c)) + Held(Holds(s, Left(c, N), c)) == 1
  }

  lemma Neighbours(i: int, N: int)
    requires 0 <= i < N && N >= 2
    ensures Right(i, N) == if i == N - 1 then 0 else i + 1
    ensures Left(Right(i, N), N) == i && Right(i, N) != i
    ensures forall c :: 0 <= c < N ==> (c == Right(i, N) <==> Left(c, N) == i)
  {}

  /** Only the neighbours of a chopstick can hold it. */
  lemma OnlyNeighboursHold(s: State, N: int, i: int, c: int)
    requires |s.phase| == N >= 2 && 0 <= i < N && 0 <= c < N && Holds(s, i, c)
    ensures i == c || i == Left(c, N)
  {
    Neighbours(i, N);
  }

  lemma StepKeepsInv(s: State, s': State, N: int, i: int)
    requires Inv(s, N) && PhilosopherStep(s, s', i)
    ensures Inv(s', N)
  {
    Neighbours(i, N);
    var r := Right(i, N);
    forall c | 0 <= c < N
      ensures s'.chopstick[c] >= 0 && s'.chopstick[c] + Held(Holds(s', c, c)) + Held(Holds(s', Left(c, N), c)) == 1
    {
      hide Right;
      Neighbours(c, N);
      assert s.chopstick[c] + Held(Holds(s, c, c)) + Held(Holds(s, Left(c, N), c)) == 1;
      assert Left(c, N) != c;
      assert c != i ==> s'.phase[c] == s.phase[c];
      assert Left(c, N) != i ==> s'.phase[Left(c, N)] == s.phase[Left(c, N)];
    }
  }

  lemma {:induction false} RunKeepsInv(run: seq<State>, N: int, k: nat)
    requires Run(run, N) && k < |run|
    ensures Inv(run[k], N)
  {
    if k > 0 {
      hide Inv, PhilosopherStep;
      RunKeepsInv(run, N, k - 1);
      assert Step(run[k-1], run[k-1+1]);
      var s, s' := run[k-1], run[k];
      var i :| PhilosopherStep(s, s', i);
      StepKeepsInv(s, s', N, i);
    }
  }

  // ---------- Exclusion ----------

  lemma TwoHoldersAreOne(s: State, N: int, c: int, i: int, j: int)
    requires Inv(s, N) && 0 <= c < N && 0 <= i < N && 0 <= j < N && Holds(s, i, c) && Holds(s, j, c)
    ensures i == j && s.chopstick[c] == 0
  {
    OnlyNeighboursHold(s, N, i, c);
    OnlyNeighboursHold(s, N, j, c);
    assert s.chopstick[c] >= 0;
  }

  /** In no run do two neighbours eat at the same time. */
  lemma NeighboursNeverEatTogether(run: seq<State>, N: int, k: nat, i: int)
    requires Run(run, N) && k < |run| && 0 <= i < N
    ensures |run[k].phase| == N && !(run[k].phase[i] == Eating && run[k].phase[Right(i, N)] == Eating)
  {
    RunKeepsInv(run, N, k);
    Neighbours(i, N);
    var s := run[k];
    if s.phase[i] == Eating && s.phase[Right(i, N)] == Eating {
      TwoHoldersAreOne(s, N, Right(i, N), i, Right(i, N));
    }
  }

  // ---------- No circular wait ----------

  /** Odd chopsticks first, then chopstick 0, then the other even ones. */
  function Rank(c: int): int {
    if c % 2 == 1 then 0 else if c == 0 then 1 else 2
  }

  /** Every philosopher takes chopsticks in increasing rank, also around the corner. */
  lemma PickingFollowsRank(i: int, N: int)
    requires 0 <= i < N && N >= 2
    ensures Rank(First(i, N)) < Rank(Second(i, N))
  {
    Neighbours(i, N);
  }

  /** The chopstick that i waits for next. */
  ghost function Wanted(s: State, i: int): int
    requires 0 <= i < |s.phase|
  {
    if s.phase[i] == Hungry then First(i, |s.phase|) else Second(i, |s.phase|)
  }

  ghost predicate Waiting(s: State, i: int) {
    0 <= i < |s.phase| == |s.chopstick| && (s.phase[i] == Hungry || s.phase[i] == OneHeld)
    && s.chopstick[Wanted(s, i)] == 0
  }

  /** i cannot go on before j gives a chopstick back. */
  ghost predicate WaitsFor(s: State, i: int, j: int) {
    Waiting(s, i) && 0 <= j < |s.phase| && Holds(s, j, Wanted(s, i))
  }

  lemma {:induction false} WaitClimbsRank(s: State, i: int, j: int)
    requires |s.phase| >= 2 && WaitsFor(s, i, j) && (s.phase[j] == Hungry || s.phase[j] == OneHeld)
    ensures Rank(Wanted(s, i)) < Rank(Wanted(s, j))
  {
    PickingFollowsRank(j, |s.phase|);
  }

  /** A chain of waiting philosophers: each waits for the next. */
  ghost predicate WaitChain(s: State, p: seq<int>) {
    |p| >= 2 && forall k :: 0 <= k < |p| - 1 ==> WaitsFor(s, p[k], p[k+1])
  }

  lemma {:induction false} ChainClimbsRank(s: State, p: seq<int>)
    requires |s.phase| >= 2 && WaitChain(s, p) && Waiting(s, p[|p| - 1])
    ensures Waiting(s, p[0]) && Rank(Wanted(s, p[0])) < Rank(Wanted(s, p[|p| - 1]))
  {
    assert WaitsFor(s, p[0], p[1]);
    if |p| == 2 {
      WaitClimbsRank(s, p[0], p[1]);
    } else {
      var q := p[1..];
      forall k | 0 <= k < |q| - 1 ensures WaitsFor(s, q[k], q[k+1]) {
        assert WaitsFor(s, p[k+1], p[k+1+1]);
      }
      ChainClimbsRank(s, q);
      WaitClimbsRank(s, p[0], p[1]);
    }
  }

  /** In no state, reachable or not, do philosophers wait for each other in a circle. */
  lemma NoCircularWait(s: State, p: seq<int>)
    requires |s.phase| >= 2 && WaitChain(s, p)
    ensures p[0] != p[|p| - 1]
  {
    assert WaitsFor(s, p[0], p[1]);
    if p[0] == p[|p| - 1] {
      ChainClimbsRank(s, p);
    }
  }

  // ---------- No deadlock ----------

  lemma CanStep(s: State, i: int) returns (s': State)
    requires |s.phase| == |s.chopstick| >= 2 && 0 <= i < |s.phase|
    requires s.phase[i] == Hungry || s.phase[i] == OneHeld ==> s.chopstick[Wanted(s, i)] > 0
    ensures PhilosopherStep(s, s', i)
  {
    var N := |s.phase|;
    Neighbours(i, N);
    s' := match s.phase[i]
      case Hungry => State(s.phase[i := OneHeld], s.chopstick[First(i, N) := s.chopstick[First(i, N)] - 1])
      case OneHeld => State(s.phase[i := Eating], s.chopstick[Second(i, N) := s.chopstick[Second(i, N)] - 1])
      case Eating => State(s.phase[i := OneLeft], s.chopstick[i := s.chopstick[i] + 1])
      case OneLeft => State(s.phase[i := Hungry], s.chopstick[Right(i, N) := s.chopstick[Right(i, N)] + 1]);
  }

  lemma SomeoneHolds(s: State, N: int, c: int) returns (j: int)
    requires Inv(s, N) && 0 <= c < N && s.chopstick[c] == 0
    ensures 0 <= j < N && Holds(s, j, c)
  {
    j := if Holds(s, c, c) then c else Left(c, N);
  }

  /** Following the waits from any philosopher ends at one that can take a step; from one that is
      not hungry, at one that is not hungry. */
  lemma {:induction false} FollowWaits(s: State, N: int, i: int) returns (j: int, s': State)
    requires Inv(s, N) && 0 <= i < N
    ensures PhilosopherStep(s, s', j) && 0 <= j < N
    ensures s.phase[i] != Hungry ==> s.phase[j] != Hungry
    decreases if s.phase[i] == Hungry || s.phase[i] == OneHeld then 3 - Rank(Wanted(s, i)) else 0
  {
    hide PhilosopherStep;
    Neighbours(i, N);
    if (s.phase[i] == Hungry || s.phase[i] == OneHeld) && s.chopstick[Wanted(s, i)] <= 0 {
      var c := Wanted(s, i);
      assert s.chopstick[c] >= 0;
      j := SomeoneHolds(s, N, c);
      assert WaitsFor(s, i, j);
      if s.phase[j] == Hungry || s.phase[j] == OneHeld {
        WaitClimbsRank(s, i, j);
        j, s' := FollowWaits(s, N, j);
      } else {
        s' := CanStep(s, j);
      }
    } else {
      s' := CanStep(s, i);
      j := i;
    }
  }

  /** In every state of every run some philosopher can take a step. */
  lemma SomeoneCanStep(run: seq<State>, N: int, k: nat) returns (s': State)
    requires Run(run, N) && k < |run|
    ensures Step(run[k], s')
  {
    RunKeepsInv(run, N, k);
    var j;
    j, s' := FollowWaits(run[k], N, 0);
  }

  // ---------- Everybody can eat ----------

  /** Steps of a philosopher until it is hungry again. */
  function StepsLeft(p: Phase): nat {
    match p
    case Hungry => 0
    case OneHeld => 3
    case Eating => 2
    case OneLeft => 1
  }

  ghost function Work(phase: seq<Phase>): nat {
    if phase == [] then 0 else Work(phase[..|phase| - 1]) + StepsLeft(phase[|phase| - 1])
  }

  lemma {:induction false} WorkUpdate(phase: seq<Phase>, i: nat, x: Phase)
    requires i < |phase|
    ensures Work(phase[i := x]) == Work(phase) - StepsLeft(phase[i]) + StepsLeft(x)
  {
    var init := phase[..|phase| - 1];
    if i == |phase| - 1 {
      assert phase[i := x][..|phase| - 1] == init;
    } else {
      assert phase[i := x][..|phase| - 1] == init[i := x];
      WorkUpdate(init, i, x);
    }
  }

  ghost function Last(run: seq<State>): State
    requires run != []
  {
    run[|run| - 1]
  }

  lemma Then(run: seq<State>, N: int, s': State, i: int) returns (run': seq<State>)
    requires Run(run, N) && PhilosopherStep(Last(run), s', i)
    ensures Run(run', N) && run' == run + [s'] && Last(run') == s'
  {
    run' := run + [s'];
    forall k | 0 <= k < |run'| - 1 ensures Step(run'[k], run'[k+1]) {
      if k < |run| - 1 { assert Step(run[k], run[k+1]); }
    }
  }

  /** Letting nobody start who is hungry, everybody becomes hungry. */
  lemma {:induction false} Settle(run: seq<State>, N: int) returns (run': seq<State>)
    requires Run(run, N)
    ensures Run(run', N) && run <= run' && |Last(run').phase| == N
    ensures forall j :: 0 <= j < N ==> Last(run').phase[j] == Hungry
    decreases Work(Last(run).phase)
  {
    hide Inv, Work;
    var s := Last(run);
    RunKeepsInv(run, N, |run| - 1);
    PhasesExist(s, N);
    if i :| 0 <= i < N && s.phase[i] != Hungry {
      var j, s' := FollowWaits(s, N, i);
      WorkUpdate(s.phase, j, s'.phase[j]);
      assert s'.phase == s.phase[j := s'.phase[j]];
      run' := Then(run, N, s', j);
      run' := Settle(run', N);
    } else {
      run' := run;
    }
  }

  lemma PhasesExist(s: State, N: int)
    requires Inv(s, N)
    ensures |s.phase| == |s.chopstick| == N >= 2
  {}

  /** When everybody is hungry, all chopsticks are free. */
  lemma AllFree(s: State, N: int)
    requires Inv(s, N) && forall j :: 0 <= j < N ==> s.phase[j] == Hungry
    ensures forall c :: 0 <= c < N ==> s.chopstick[c] == 1
  {
    forall c | 0 <= c < N ensures s.chopstick[c] == 1 {
      assert s.chopstick[c] + Held(Holds(s, c, c)) + Held(Holds(s, Left(c, N), c)) == 1;
    }
  }

  /** From every reachable state every philosopher can still come to eat. */
  lemma EverybodyCanEat(run: seq<State>, N: int, i: int) returns (run': seq<State>)
    requires Run(run, N) && 0 <= i < N
    ensures Run(run', N) && run <= run' && |Last(run').phase| == N && Last(run').phase[i] == Eating
  {
    assert run != [];
    hide Inv, Run;
    run' := Settle(run, N);
    RunKeepsInv(run', N, |run'| - 1);
    AllFree(Last(run'), N);
    PhasesExist(Last(run'), N);
    Neighbours(i, N);
    var s := CanStep(Last(run'), i);
    run' := Then(run', N, s, i);
    s := CanStep(Last(run'), i);
    run' := Then(run', N, s, i);
  }
}

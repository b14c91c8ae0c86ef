/**
 What the three-thread resolver can still do: workers take a bounded number of steps, main returns what
 it sees, every server can win, and a return stays in reach exactly when the counters start out right.
 */
module ResolverProgress {
  import opened Bytes
  import opened DnsFormat
  import opened Nat64
  import opened ResolverRace

  // ----- Workers stop -----

  /** Every step of a worker brings it closer to its end. */
  lemma StepShortens(cfg: Config, s: State, s': State, w: nat)
    requires ValidConfig(cfg) && w < WORKERS == |s.workers| && WorkerStep(cfg, s, s', w)
    requires WellPlaced(cfg, w, s.workers[w]) && |s'.workers| == WORKERS && WellPlaced(cfg, w, s'.workers[w])
    ensures Distance(cfg, w, s'.workers[w]) < Distance(cfg, w, s.workers[w])
  {
    hide ValidConfig, Found, Table;
  }

  /** Bounds the steps all workers have left. */
  function Effort(cfg: Config, s: State): nat
    requires ValidConfig(cfg) && Shape(cfg, s)
  {
    Distance(cfg, 0, s.workers[0]) + Distance(cfg, 1, s.workers[1]) + Distance(cfg, 2, s.workers[2])
  }

  lemma WorkerLessEffort(cfg: Config, s: State, s': State, w: nat)
    requires ValidConfig(cfg) && w < WORKERS && Shape(cfg, s) && WorkerStep(cfg, s, s', w) && Shape(cfg, s')
    ensures Effort(cfg, s') < Effort(cfg, s)
  {
    StepTouches(cfg, s, s', w);
    StepShortens(cfg, s, s', w);
    hide WorkerStep, ValidConfig, WellPlaced, Distance;
    assert forall v :: 0 <= v < WORKERS && v != w ==> s'.workers[v] == s.workers[v];
  }

  lemma MainLessEffort(cfg: Config, s: State, s': State)
    requires ValidConfig(cfg) && Shape(cfg, s) && MainStep(cfg, s, s') && Shape(cfg, s')
    ensures if s.main.Creating? then Effort(cfg, s') < Effort(cfg, s) else s'.workers == s.workers
  {
    if s.main.Creating? {
      CreationTouches(cfg, s, s');
      assert s.workers[s.main.k].Idle?;
      hide MainStep, ValidConfig;
    } else {
      hide Distance, WellPlaced, ValidConfig;
    }
  }

  /** A step that changes any worker uses up effort, and no step adds any. */
  lemma NextLessEffort(cfg: Config, s: State, s': State)
    requires ValidConfig(cfg) && Shape(cfg, s) && Next(cfg, s, s') && Shape(cfg, s')
    ensures if s'.workers == s.workers then Effort(cfg, s') == Effort(cfg, s) else Effort(cfg, s') < Effort(cfg, s)
  {
    hide MainStep, WorkerStep, ValidConfig, Distance, WellPlaced;
    if MainStep(cfg, s, s') {
      MainLessEffort(cfg, s, s');
    } else {
      var w: nat :| w < WORKERS && WorkerStep(cfg, s, s', w);
      WorkerLessEffort(cfg, s, s', w);
    }
  }

  /** How many of the first `k` steps were a worker's or created one. */
  ghost function WorkerMoves(tr: seq<State>, k: nat): nat
    requires k < |tr|
  {
    if k == 0 then 0 else WorkerMoves(tr, k - 1) + One(tr[k].workers != tr[k - 1].workers)
  }

  lemma {:induction false} EffortSpent(cfg: Config, tr: seq<State>, failCount: int, serverNum: int, k: nat)
    requires ValidConfig(cfg) && Run(cfg, tr, failCount, serverNum) && k < |tr|
    ensures Shape(cfg, tr[0]) && Shape(cfg, tr[k])
    ensures WorkerMoves(tr, k) + Effort(cfg, tr[k]) <= Effort(cfg, tr[0])
  {
    hide Run, ValidConfig, Next, Shape, Effort;
    RunInv(cfg, tr, failCount, serverNum, 0);
    if k > 0 {
      EffortSpent(cfg, tr, failCount, serverNum, k - 1);
      RunInv(cfg, tr, failCount, serverNum, k);
      RunNext(cfg, tr, failCount, serverNum, k - 1);
      NextLessEffort(cfg, tr[k - 1], tr[k]);
    }
  }

  /**
   However a run interleaves, and however long main polls, the workers take at most 59 steps each and
   50 for every answer in their replies.
   */
  lemma WorkersStop(cfg: Config, tr: seq<State>, failCount: int, serverNum: int, k: nat)
    requires ValidConfig(cfg) && Run(cfg, tr, failCount, serverNum) && k < |tr|
    ensures WorkerMoves(tr, k) <= 177 + 50 * (|cfg.replies[0]| + |cfg.replies[1]| + |cfg.replies[2]|) <= 3177
  {
    EffortSpent(cfg, tr, failCount, serverNum, k);
    hide WorkerMoves;
  }

  // ----- Main returns what it sees -----

  predicate Polling(m: Main) { m.PollSize? || m.PollFail? }

  predicate Returned(m: Main) { m.ReturnedOk? || m.ReturnedFail? }

  /** Where main goes from its two polls and from the store, whatever the workers do meanwhile. */
  lemma PollStep(cfg: Config, tr: seq<State>, failCount: int, serverNum: int, i: nat)
    requires ValidConfig(cfg) && Run(cfg, tr, failCount, serverNum) && i + 1 < |tr| && tr[i + 1].main != tr[i].main
    ensures var s, m := tr[i], tr[i + 1].main;
            && (s.main.PollSize? ==>
                  m == if s.size == 0 then PollFail else if cfg.literal.Some? then Shrinking else ReturnedOk)
            && (s.main.PollFail? ==> m == if s.failCount == s.serverNum then ReturnedFail else PollSize)
            && (s.main.Shrinking? ==> m == CountingZeros(0) && tr[i + 1].size == 1)
            && !Returned(s.main)
  {
    RunNext(cfg, tr, failCount, serverNum, i);
    var s, s' := tr[i], tr[i + 1];
    hide Run, ValidConfig, WorkerStep;
    if !MainStep(cfg, s, s') {
      var w: nat :| w < WORKERS && WorkerStep(cfg, s, s', w);
      StepTouches(cfg, s, s', w);
    }
  }

  /** The return value main is bound for once its poll is decided. */
  predicate BoundForOk(s: State) {
    SawResult(s.main) || (s.main.PollSize? && s.size > 0) || (s.main.PollFail? && s.failCount != s.serverNum)
  }

  /** Main has something to return: all workers are created and a poll would be decided. */
  predicate CanReturn(s: State) {
    !s.main.Creating? && (Polling(s.main) ==> Decided(s))
  }

  /** Bounds the steps main has left once its poll is decided. */
  function MainDistance(cfg: Config, s: State): nat
  {
    match s.main
    case PollFail => if s.failCount == s.serverNum then 1 else 31
    case PollSize => if s.size == 0 then 2 else 30
    case Shrinking => 29
    case CountingZeros(z) => if z <= ADDRESS_SIZE then 12 + ADDRESS_SIZE - z else 0
    case Rewriting(_, j) => if j <= 5 then 6 - j else 0
    case _ => 0
  }

  lemma EditCount(zeros: nat, v: seq<byte>)
    requires IsV4(v)
    ensures |Edits(zeros, v)| <= 5
  {
  }

  lemma MainAdvances(cfg: Config, s: State, failCount: int, serverNum: int) returns (s': State)
    requires ValidConfig(cfg) && Inv(cfg, s, failCount, serverNum) && CanReturn(s) && !Returned(s.main)
    ensures MainStep(cfg, s, s') && s'.workers == s.workers && s'.mutex == s.mutex && CanReturn(s')
    ensures MainDistance(cfg, s') < MainDistance(cfg, s) && (BoundForOk(s') <==> BoundForOk(s))
  {
    match s.main
    case PollSize =>
      s' := s.(main := if s.size == 0 then PollFail else if cfg.literal.Some? then Shrinking else ReturnedOk);
    case PollFail => s' := s.(main := if s.failCount == s.serverNum then ReturnedFail else PollSize);
    case Shrinking => s' := s.(main := CountingZeros(0), size := 1);
    case CountingZeros(zeros) =>
      s' := s.(main := if zeros >= ADDRESS_SIZE || s.slots[0][ADDRESS_SIZE - 1 - zeros] != 0 then Rewriting(zeros, 0)
                       else CountingZeros(zeros + 1));
    case Rewriting(zeros, j) =>
      var es := Edits(zeros, cfg.literal.value);
      EditCount(zeros, cfg.literal.value);
      s' := if j >= |es| then s.(main := ReturnedOk)
            else s.(main := Rewriting(zeros, j + 1), slots := Poke(s.slots, 0, es[j].at, es[j].octet));
  }

  /**
   A decided main returns, with no worker moving: 0 for a result it has seen or will see, -1 for the full
   failure count.
   */
  lemma {:induction false} MainReturns(cfg: Config, s: State, failCount: int, serverNum: int) returns (path: seq<State>)
    requires ValidConfig(cfg) && Inv(cfg, s, failCount, serverNum) && CanReturn(s)
    ensures Path(cfg, path) && path[0] == s && forall i :: 0 <= i < |path| ==> path[i].workers == s.workers
    ensures path[|path| - 1].main == (if BoundForOk(s) then ReturnedOk else ReturnedFail)
    ensures path[|path| - 1].mutex == s.mutex
    decreases MainDistance(cfg, s)
  {
    if Returned(s.main) {
      path := [s];
    } else {
      var s' := MainAdvances(cfg, s, failCount, serverNum);
      NextKeepsInv(cfg, s, s', failCount, serverNum);
      path := MainReturns(cfg, s', failCount, serverNum);
      PathExtends(cfg, s, path);
      path := [s] + path;
    }
  }

  /** With trustworthy counters the size alone decides the return value. */
  lemma SizeDecidesReturn(cfg: Config, s: State, failCount: int, serverNum: int)
    requires ValidConfig(cfg) && Inv(cfg, s, failCount, serverNum) && CanReturn(s) && !Returned(s.main)
    requires TrustworthyCounters(failCount, serverNum)
    ensures BoundForOk(s) <==> s.size > 0
  {
    AppendedBound(cfg, s, failCount, serverNum);
    CountsMeet(s, failCount, serverNum);
  }

  // ----- A return stays in reach -----

  lemma FinishCreation(cfg: Config, s: State) returns (path: seq<State>)
    requires ValidConfig(cfg) && Shape(cfg, s)
    ensures Path(cfg, path) && path[0] == s && !path[|path| - 1].main.Creating?
    decreases if s.main.Creating? then WORKERS - s.main.k else 0
  {
    if s.main.Creating? {
      var k := s.main.k;
      var s' := Go(s, k, Asking).(main := NextMain(k));
      assert MainStep(cfg, s, s');
      path := FinishCreation(cfg, s');
      PathExtends(cfg, s, path);
      path := [s] + path;
    } else {
      path := [s];
    }
  }

  lemma SomeWorkerSteps(cfg: Config, s: State, failCount: int, serverNum: int) returns (s': State)
    requires ValidConfig(cfg) && Inv(cfg, s, failCount, serverNum) && !s.main.Creating? && !Quiescent(cfg, s)
    ensures Next(cfg, s, s') && Inv(cfg, s', failCount, serverNum)
    ensures s'.main == s.main && Effort(cfg, s') < Effort(cfg, s)
  {
    assert Shape(cfg, s);
    var w: nat, t :| w < WORKERS && WorkerStep(cfg, s, t, w);
    s' := t;
    hide WorkerStep, MainStep, ValidConfig, Shape, Effort, Inv;
    StepTouches(cfg, s, s', w);
    WorkerKeepsInv(cfg, s, s', w, failCount, serverNum);
    assert Shape(cfg, s') by { InvShape(cfg, s', failCount, serverNum); }
    WorkerLessEffort(cfg, s, s', w);
  }

  lemma InvShape(cfg: Config, s: State, failCount: int, serverNum: int)
    requires ValidConfig(cfg) && Inv(cfg, s, failCount, serverNum)
    ensures Shape(cfg, s) && |s.workers| == WORKERS
  {
  }

  /** The workers run until none of them can step. */
  lemma {:induction false} WorkersRun(cfg: Config, s: State, failCount: int, serverNum: int) returns (path: seq<State>)
    requires ValidConfig(cfg) && Inv(cfg, s, failCount, serverNum) && !s.main.Creating?
    ensures Path(cfg, path) && path[0] == s && Quiescent(cfg, path[|path| - 1]) && path[|path| - 1].main == s.main
    decreases Effort(cfg, s)
  {
    hide Inv, ValidConfig, Next, Quiescent, Effort;
    InvShape(cfg, s, failCount, serverNum);
    if Quiescent(cfg, s) {
      path := [s];
    } else {
      var s' := SomeWorkerSteps(cfg, s, failCount, serverNum);
      path := WorkersRun(cfg, s', failCount, serverNum);
      PathExtends(cfg, s, path);
      path := [s] + path;
    }
  }

  function Last(tr: seq<State>): State
    requires tr != []
  {
    tr[|tr| - 1]
  }

  /** A run goes on along a path. */
  lemma RunOn(cfg: Config, tr: seq<State>, failCount: int, serverNum: int, path: seq<State>) returns (more: seq<State>)
    requires ValidConfig(cfg) && Run(cfg, tr, failCount, serverNum) && Path(cfg, path) && path[0] == Last(tr)
    ensures more != [] && Run(cfg, more, failCount, serverNum) && tr <= more && Last(more) == Last(path)
    ensures Inv(cfg, Last(more), failCount, serverNum)
  {
    RunFollows(cfg, tr, failCount, serverNum, path);
    more := tr + path[1..];
    RunInv(cfg, more, failCount, serverNum, |more| - 1);
  }

  lemma StoppedCanReturn(cfg: Config, s: State, failCount: int, serverNum: int)
    requires ValidConfig(cfg) && Inv(cfg, s, failCount, serverNum) && Quiescent(cfg, s)
    requires serverNum - failCount == WORKERS
    ensures CanReturn(s)
  {
    QuiescentParked(cfg, s, failCount, serverNum);
    ParkedDecides(cfg, s, failCount, serverNum);
    CountsMeet(s, failCount, serverNum);
  }

  lemma ReturnInReach(cfg: Config, tr: seq<State>, failCount: int, serverNum: int) returns (more: seq<State>)
    requires ValidConfig(cfg) && Run(cfg, tr, failCount, serverNum) && serverNum - failCount == WORKERS
    ensures Run(cfg, more, failCount, serverNum) && tr <= more && Returned(Last(more).main)
  {
    assert tr != [];
    hide Inv, ValidConfig, Path, Quiescent, CanReturn;
    RunInv(cfg, tr, failCount, serverNum, |tr| - 1);
    InvShape(cfg, Last(tr), failCount, serverNum);
    var created := FinishCreation(cfg, Last(tr));
    var tr1 := RunOn(cfg, tr, failCount, serverNum, created);
    var stopped := WorkersRun(cfg, Last(tr1), failCount, serverNum);
    var tr2 := RunOn(cfg, tr1, failCount, serverNum, stopped);
    StoppedCanReturn(cfg, Last(tr2), failCount, serverNum);
    var returned := MainReturns(cfg, Last(tr2), failCount, serverNum);
    more := RunOn(cfg, tr2, failCount, serverNum, returned);
  }

  /**
   From every point of every run a return can still be reached, exactly when the counters start out as
   far apart as there are workers.
   */
  lemma AlwaysReturns(cfg: Config, failCount: int, serverNum: int)
    requires ValidConfig(cfg)
    ensures (forall tr :: Run(cfg, tr, failCount, serverNum) ==>
               exists more :: Run(cfg, more, failCount, serverNum) && tr <= more && Returned(Last(more).main))
            <==> serverNum - failCount == WORKERS
  {
    if serverNum - failCount == WORKERS {
      forall tr | Run(cfg, tr, failCount, serverNum)
        ensures exists more :: Run(cfg, more, failCount, serverNum) && tr <= more && Returned(Last(more).main)
      {
        var more := ReturnInReach(cfg, tr, failCount, serverNum);
      }
    } else {
      var tr := StuckPoll(cfg, failCount, serverNum);
      forall more | Run(cfg, more, failCount, serverNum) && tr <= more
        ensures !Returned(Last(more).main)
      {
        UndecidedPolls(cfg, more, failCount, serverNum, 3, |more| - 1);
      }
    }
  }

  // ----- What a worker achieves alone -----

  /** Past the question and not yet given up. */
  predicate Hopeful(p: Worker) { p.Waiting? || Holding(p) }

  /** No other worker stands in the way of `w`. */
  predicate Unhindered(s: State, w: nat) {
    (s.mutex == None || s.mutex == Some(w)) && (s.countMutex == None || s.countMutex == Some(w))
  }

  predicate Ended(p: Worker) { p.Refused? || p.Succeeded? || p.Counted? }

  lemma AloneStep(cfg: Config, s: State, failCount: int, serverNum: int, w: nat) returns (s': State)
    requires ValidConfig(cfg) && Inv(cfg, s, failCount, serverNum) && w < WORKERS
    requires Unhindered(s, w) && !s.workers[w].Idle? && !Ended(s.workers[w])
    ensures Next(cfg, s, s') && Inv(cfg, s', failCount, serverNum) && Unhindered(s', w)
    ensures |s'.workers| == WORKERS && s'.workers == s.workers[w := s'.workers[w]] && s'.main == s.main
    ensures !s'.workers[w].Idle? && !s'.workers[w].Refused?
    ensures Hopeful(s.workers[w]) && Found(cfg, w) != [] ==> Hopeful(s'.workers[w])
    ensures WellPlaced(cfg, w, s.workers[w]) && WellPlaced(cfg, w, s'.workers[w])
    ensures Distance(cfg, w, s'.workers[w]) < Distance(cfg, w, s.workers[w])
  {
    assert !Parked(s, s.workers[w]) by { NotHindered(cfg, s, failCount, serverNum, w); }
    s' := CanMove(cfg, s, w, failCount, serverNum);
    StepTouches(cfg, s, s', w);
    StepMutex(cfg, s, s', w);
    StepCountMutex(cfg, s, s', w);
    WorkerKeepsInv(cfg, s, s', w, failCount, serverNum);
    assert WellPlaced(cfg, w, s.workers[w]) && WellPlaced(cfg, w, s'.workers[w]);
    StepShortens(cfg, s, s', w);
    hide Inv, WorkerStep, Distance, ValidConfig;
  }

  lemma NotHindered(cfg: Config, s: State, failCount: int, serverNum: int, w: nat)
    requires ValidConfig(cfg) && Inv(cfg, s, failCount, serverNum) && w < WORKERS
    requires Unhindered(s, w) && !Ended(s.workers[w])
    ensures !Parked(s, s.workers[w])
  {
  }

  /** Worker `w` runs alone to its end; a hopeful one with an address in its reply succeeds. */
  lemma {:induction false} RunsAlone(cfg: Config, s: State, failCount: int, serverNum: int, w: nat)
    returns (path: seq<State>)
    requires ValidConfig(cfg) && Inv(cfg, s, failCount, serverNum) && w < WORKERS
    requires Unhindered(s, w) && !s.workers[w].Idle?
    ensures Path(cfg, path) && path[0] == s
    ensures var s' := Last(path);
            && Inv(cfg, s', failCount, serverNum) && Unhindered(s', w)
            && |s'.workers| == WORKERS && s'.workers == s.workers[w := s'.workers[w]] && s'.main == s.main
            && Ended(s'.workers[w]) && (s'.workers[w].Refused? ==> s.workers[w].Refused?)
            && (Hopeful(s.workers[w]) && Found(cfg, w) != [] ==> s'.workers[w].Succeeded?)
    decreases if WellPlaced(cfg, w, s.workers[w]) then Distance(cfg, w, s.workers[w]) else 0
  {
    hide ValidConfig, Next, Inv, WellPlaced, Distance, Found;
    InvShape(cfg, s, failCount, serverNum);
    if Ended(s.workers[w]) {
      path := [s];
    } else {
      var s' := AloneStep(cfg, s, failCount, serverNum, w);
      path := RunsAlone(cfg, s', failCount, serverNum, w);
      PathExtends(cfg, s, path);
      path := [s] + path;
    }
  }

  /** A server that never answers: its worker can always fail, and is counted once with nothing else changed. */
  lemma SilentServer(cfg: Config, s: State, w: nat) returns (path: seq<State>)
    requires ValidConfig(cfg) && |s.workers| == WORKERS && w < WORKERS
    requires s.workers[w].Asking? && s.countMutex == None
    ensures Path(cfg, path) && path[0] == s
    ensures Last(path) == s.(workers := s.workers[w := Counted], failCount := s.failCount + 1)
  {
    var a := Go(s, w, Failed);
    var b := Go(s, w, Counting).(countMutex := Some(w));
    var c := Go(s, w, CountRead(s.failCount)).(countMutex := Some(w));
    var d := Go(s, w, CountDone).(countMutex := Some(w), failCount := s.failCount + 1);
    var e := Go(s, w, Counted).(failCount := s.failCount + 1);
    assert Go(a, w, Counting).workers == b.workers && Go(b, w, CountRead(s.failCount)).workers == c.workers;
    assert Go(c, w, CountDone).workers == d.workers && Go(d, w, Counted).workers == e.workers;
    assert WorkerStep(cfg, s, a, w) && WorkerStep(cfg, a, b, w) && WorkerStep(cfg, b, c, w);
    assert WorkerStep(cfg, c, d, w) && WorkerStep(cfg, d, e, w);
    hide WorkerStep, MainStep, ValidConfig;
    path := [s, a, b, c, d, e];
  }

  /**
   A server that answers first: its worker succeeds with all its addresses in the table, or, when there is
   none, gives the mutex back and is counted as a failure.
   */
  lemma AnsweringServer(cfg: Config, s: State, failCount: int, serverNum: int, w: nat) returns (path: seq<State>)
    requires ValidConfig(cfg) && Inv(cfg, s, failCount, serverNum) && w < WORKERS
    requires s.workers[w].Asking? && s.mutex == None && s.countMutex == None
    ensures Path(cfg, path) && path[0] == s && Inv(cfg, Last(path), failCount, serverNum)
    ensures var s', found := Last(path), Found(cfg, w);
            && s'.main == s.main && s'.workers == s.workers[w := if found == [] then Counted else Succeeded]
            && s'.size == |found| <= |s'.slots| && s'.slots[..|found|] == found
            && s'.mutex == (if found == [] then None else Some(w))
            && s'.failCount == s.failCount + One(found == [])
  {
    var a := Go(s, w, Waiting);
    assert WorkerStep(cfg, s, a, w);
    WorkerKeepsInv(cfg, s, a, w, failCount, serverNum);
    var alone := RunsAlone(cfg, a, failCount, serverNum, w);
    PathExtends(cfg, s, alone);
    path := [s] + alone;
    AloneOutcome(cfg, s, Last(alone), failCount, serverNum, w);
  }

  /** What the invariant says about the end of a worker that ran alone. */
  lemma AloneOutcome(cfg: Config, s: State, s': State, failCount: int, serverNum: int, w: nat)
    requires ValidConfig(cfg) && Inv(cfg, s, failCount, serverNum) && Inv(cfg, s', failCount, serverNum) && w < WORKERS
    requires s.workers[w].Asking? && s.mutex == None && s'.main == s.main && Unhindered(s', w)
    requires s'.workers == s.workers[w := s'.workers[w]] && (s'.workers[w].Counted? || s'.workers[w].Succeeded?)
    requires Found(cfg, w) != [] ==> s'.workers[w].Succeeded?
    ensures var found := Found(cfg, w);
            && s'.workers == s.workers[w := if found == [] then Counted else Succeeded]
            && s'.size == |found| <= |s'.slots| && s'.slots[..|found|] == found
            && s'.mutex == (if found == [] then None else Some(w))
            && s'.failCount == s.failCount + One(found == [])
  {
    CountedUpdate(s.workers, w, s'.workers[w]);
    assert WellPlaced(cfg, w, s'.workers[w]) && Holding(s'.workers[w]) <==> s'.mutex == Some(w);
    assert !SawResult(s.main);
    hide CountedWorkers, RefusedWorkers, Found, Partial, Rewritten;
  }

  /** All workers asking and nothing else done yet. */
  lemma AllAsking(cfg: Config, failCount: int, serverNum: int) returns (tr: seq<State>)
    requires ValidConfig(cfg)
    ensures tr != [] && Run(cfg, tr, failCount, serverNum) && Inv(cfg, Last(tr), failCount, serverNum)
    ensures Last(tr) == State([Asking, Asking, Asking], PollSize, None, None, 0, cfg.slots, failCount, serverNum)
  {
    tr := CreationRun(cfg, failCount, serverNum, 0);
    RunInv(cfg, tr, failCount, serverNum, 3);
  }

  /**
   No server is privileged: whichever has an address in its reply can be the one whose addresses main
   returns, all of them for a host name, and one with the literal put in for a literal.
   */
  lemma AnyServerCanWin(cfg: Config, failCount: int, serverNum: int, w: nat) returns (tr: seq<State>)
    requires ValidConfig(cfg) && w < WORKERS && Found(cfg, w) != []
    ensures Run(cfg, tr, failCount, serverNum) && Last(tr).main == ReturnedOk && Last(tr).mutex == Some(w)
    ensures IsAddress(Found(cfg, w)[0])
    ensures var s, found := Last(tr), Found(cfg, w);
            |s.slots| == 20 && |found| <= 20
            && (cfg.literal.None? ==> s.size == |found| && s.slots[..|found|] == found)
            && (cfg.literal.Some? ==> s.size == 1 && s.slots[0] == Replace(found[0], cfg.literal.value))
  {
    hide Path, Inv;
    tr := AllAsking(cfg, failCount, serverNum);
    var answered := AnsweringServer(cfg, Last(tr), failCount, serverNum, w);
    tr := RunOn(cfg, tr, failCount, serverNum, answered);
    var s := Last(tr);
    var returned := MainReturns(cfg, s, failCount, serverNum);
    var more := RunOn(cfg, tr, failCount, serverNum, returned);
    WinnerReturned(cfg, tr, more, failCount, serverNum, w);
    tr := more;
  }

  /** Nobody but main has moved since the winner was done. */
  lemma WinnerReturned(cfg: Config, tr: seq<State>, more: seq<State>, failCount: int, serverNum: int, w: nat)
    requires ValidConfig(cfg) && w < WORKERS && Found(cfg, w) != []
    requires Run(cfg, tr, failCount, serverNum) && Run(cfg, more, failCount, serverNum) && tr <= more
    requires var s := Last(tr);
             && |s.workers| == WORKERS && s.workers[w].Succeeded? && s.mutex == Some(w) && s.main == PollSize
             && s.size == |Found(cfg, w)| <= |s.slots| && s.slots[..s.size] == Found(cfg, w)
    requires Last(more).main == ReturnedOk && |Last(more).workers| == WORKERS
    ensures IsAddress(Found(cfg, w)[0])
    ensures var s, found := Last(more), Found(cfg, w);
            && s.mutex == Some(w) && |s.slots| == 20 && |found| <= 20
            && (cfg.literal.None? ==> s.size == |found| && s.slots[..|found|] == found)
            && (cfg.literal.Some? ==> s.size == 1 && s.slots[0] == Replace(found[0], cfg.literal.value))
  {
    var i, j := |tr| - 1, |more| - 1;
    FirstAddress(cfg, more, failCount, serverNum, i, j);
    SizeSettles(cfg, more, failCount, serverNum, i, j);
    OneReplyOnly(cfg, more, failCount, serverNum, j);
  }

  /** When no server answers, a call whose counters start out right returns -1, with every worker counted. */
  lemma NoAnswerFails(cfg: Config, failCount: int, serverNum: int) returns (tr: seq<State>)
    requires ValidConfig(cfg) && serverNum - failCount == WORKERS
    ensures Run(cfg, tr, failCount, serverNum) && Last(tr).main == ReturnedFail
    ensures Last(tr).workers == [Counted, Counted, Counted]
  {
    tr := AllAsking(cfg, failCount, serverNum);
    for w := 0 to WORKERS
      invariant tr != [] && Run(cfg, tr, failCount, serverNum) && Inv(cfg, Last(tr), failCount, serverNum)
      invariant Last(tr) == SilentFirst(cfg, failCount, serverNum, w)
    {
      var silent := SilentServer(cfg, Last(tr), w);
      tr := RunOn(cfg, tr, failCount, serverNum, silent);
    }
    var returned := MainReturns(cfg, Last(tr), failCount, serverNum);
    tr := RunOn(cfg, tr, failCount, serverNum, returned);
  }

  /** The first `k` workers have been counted and the others still ask. */
  function SilentFirst(cfg: Config, failCount: int, serverNum: int, k: nat): State {
    State([if k > 0 then Counted else Asking, if k > 1 then Counted else Asking, if k > 2 then Counted else Asking],
          PollSize, None, None, 0, cfg.slots, failCount + k, serverNum)
  }

  // ----- The store that is lost -----

  /** The mutex holder is about to count its last address, and has read the size for it. */
  predicate AtLast(cfg: Config, w: nat, s: State)
    requires ValidConfig(cfg) && w < WORKERS
  {
    && |s.workers| == WORKERS && s.mutex == Some(w) && s.workers[w].Storing?
    && Appended(cfg, w, s.workers[w]) + 1 == |Found(cfg, w)|
  }

  lemma TowardsLast(cfg: Config, s: State, failCount: int, serverNum: int, w: nat) returns (s': State)
    requires ValidConfig(cfg) && Inv(cfg, s, failCount, serverNum) && w < WORKERS
    requires Appending(cfg, w, s) && !AtLast(cfg, w, s)
    ensures Next(cfg, s, s') && Inv(cfg, s', failCount, serverNum) && Appending(cfg, w, s') && s'.main == s.main
    ensures StepsLeft(cfg, w, s') < StepsLeft(cfg, w, s)
  {
    var p := s.workers[w];
    assert Holding(p) && !Parked(s, p) && !p.Idle? && WellPlaced(cfg, w, p);
    hide Inv, WorkerStep, MainStep, ValidConfig, Appended, Found, Distance, WellPlaced;
    s' := CanMove(cfg, s, w, failCount, serverNum);
    CloserStep(cfg, s, s', w);
    StepShortens(cfg, s, s', w);
    WorkerKeepsInv(cfg, s, s', w, failCount, serverNum);
  }

  lemma {:induction false} RunsToLast(cfg: Config, s: State, failCount: int, serverNum: int, w: nat)
    returns (path: seq<State>)
    requires ValidConfig(cfg) && Inv(cfg, s, failCount, serverNum) && w < WORKERS && Appending(cfg, w, s)
    ensures Path(cfg, path) && path[0] == s && AtLast(cfg, w, Last(path)) && Last(path).main == s.main
    decreases StepsLeft(cfg, w, s)
  {
    hide Inv, ValidConfig, Next, Appending, AtLast, StepsLeft;
    InvShape(cfg, s, failCount, serverNum);
    if AtLast(cfg, w, s) {
      path := [s];
    } else {
      var s' := TowardsLast(cfg, s, failCount, serverNum, w);
      path := RunsToLast(cfg, s', failCount, serverNum, w);
      PathExtends(cfg, s, path);
      path := [s] + path;
    }
  }

  /**
   Main's store of 1 can be lost altogether: a winner that has read the size before it writes back the
   full number of its addresses, although main has already cut the result to one.
   */
  lemma StoreCanBeLost(cfg: Config, failCount: int, serverNum: int, w: nat) returns (tr: seq<State>)
    requires ValidConfig(cfg) && cfg.literal.Some? && w < WORKERS && |Found(cfg, w)| >= 2
    ensures Run(cfg, tr, failCount, serverNum) && Last(tr).main == CountingZeros(0) && Last(tr).size == |Found(cfg, w)|
  {
    UptoEnds(cfg, w);
    tr := FirstHolder(cfg, failCount, serverNum, w);
    RunInv(cfg, tr, failCount, serverNum, |tr| - 1);
    var path := RunsToLast(cfg, Last(tr), failCount, serverNum, w);
    tr := RunOn(cfg, tr, failCount, serverNum, path);
    var seen := Last(tr).workers[w].seen;
    assert seen + 1 == |Found(cfg, w)| && Last(tr).size == seen;
    tr := MainCuts(cfg, tr, failCount, serverNum);
    var s := Last(tr);
    var i := s.workers[w].i;
    var s' := Go(s, w, Scanning(i + 1)).(size := seen + 1);
    assert WorkerStep(cfg, s, s', w);
    RunExtends(cfg, tr, failCount, serverNum, s');
    tr := tr + [s'];
  }
}

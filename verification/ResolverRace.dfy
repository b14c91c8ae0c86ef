/**
 The three-thread resolver: main starts up to three workers, each asks one server and appends its
 addresses under a mutex that only a failing worker gives back, and main polls the result size and
 the failure count without any lock. Every step reads or writes one shared variable.
 */
module ResolverRace {
  import opened Bytes
  import opened DnsFormat
  import opened Answers
  import opened Extraction
  import opened Nat64

  /** Workers main tries to start; the initial value of `DNS64SERVERNUM`. */
  const WORKERS: nat := 3

  /**
   What differs between runs: the answers in each worker's reply, the IPv4 address when the host is
   a literal, and what the caller's address table held before.
   */
  datatype Config = Config(replies: seq<seq<Record>>, literal: Option<seq<byte>>, slots: seq<seq<byte>>)

  predicate Table(slots: seq<seq<byte>>) {
    |slots| == MAX_ANSWERS && forall k :: 0 <= k < MAX_ANSWERS ==> |slots[k]| == ADDRESS_SIZE
  }

  predicate ValidConfig(cfg: Config) {
    && |cfg.replies| == WORKERS
    && (forall w :: 0 <= w < WORKERS ==> |cfg.replies[w]| <= MAX_ANSWERS && AddressesWhole(cfg.replies[w]))
    && (cfg.literal.Some? ==> IsV4(cfg.literal.value))
    && Table(cfg.slots)
  }

  /** A worker's program counter with the locals that are live there. */
  datatype Worker =
    | Idle                                     // not created yet
    | Refused                                  // pthread_create failed
    | Asking                                   // sends, receives and parses
    | Waiting                                  // at the lock of dnsquery_mutex
    | Scanning(i: nat)                         // holds it; at the head of the answer loop
    | Indexing(i: nat, p: nat)                 // about to read size to address octet p
    | Writing(i: nat, p: nat, index: nat)      // about to store octet p
    | Bumping(i: nat)                          // about to read size in size++
    | Storing(i: nat, seen: nat)               // about to write size in size++
    | Testing                                  // about to test size
    | Releasing                                // found it zero; about to unlock
    | Succeeded                                // returned 0, still holding the mutex
    | Failed                                   // returned -1; at the lock of dnsquery_mutex1
    | Counting                                 // holds it; about to read the failure count
    | CountRead(failures: int)                 // about to write the failure count
    | CountDone                                // about to unlock
    | Counted

  datatype Main =
    | Creating(k: nat)                         // about to create worker k
    | PollSize
    | PollFail
    | Shrinking                                // host is a literal: about to store size = 1
    | CountingZeros(zeros: nat)                // GetSuffixZeroCount on the first address
    | Rewriting(zeros: nat, j: nat)            // the stores of ReplaceNat64WithV4IP
    | ReturnedOk
    | ReturnedFail

  datatype State = State(
    workers: seq<Worker>, main: Main, mutex: Option<nat>, countMutex: Option<nat>,
    size: nat, slots: seq<seq<byte>>, failCount: int, serverNum: int)

  // ----- Steps -----

  predicate Init(cfg: Config, s: State, failCount: int, serverNum: int) {
    s == State([Idle, Idle, Idle], Creating(0), None, None, 0, cfg.slots, failCount, serverNum)
  }

  function Go(s: State, w: nat, p: Worker): State
    requires w < |s.workers|
  {
    s.(workers := s.workers[w := p])
  }

  /** One octet stored in the table. */
  function Poke(slots: seq<seq<byte>>, k: nat, p: nat, octet: byte): seq<seq<byte>>
    requires k < |slots| && p < |slots[k]|
  {
    var row: seq<byte> := slots[k];
    slots[k := row[p := octet]]
  }

  predicate InTable(s: State, k: nat, p: nat) {
    k < |s.slots| && p < |s.slots[k]|
  }

  /** `th_socket_gethostbyname` and the part of `socket_gethostbyname` behind the reply. */
  predicate WorkerStep(cfg: Config, s: State, s': State, w: nat)
    requires ValidConfig(cfg) && w < WORKERS == |s.workers|
  {
    var reply := cfg.replies[w];
    match s.workers[w]
    case Asking => s' == Go(s, w, Waiting) || s' == Go(s, w, Failed)
    case Waiting => s.mutex.None? && s' == Go(s, w, Scanning(0)).(mutex := Some(w))
    case Scanning(i) =>
      s' == Go(s, w, if i >= |reply| then Testing
                     else if reply[i].rtype == TYPE_AAAA then Indexing(i, 0) else Scanning(i + 1))
    case Indexing(i, p) => s' == Go(s, w, if p < ADDRESS_SIZE then Writing(i, p, s.size) else Bumping(i))
    case Writing(i, p, index) =>
      && InTable(s, index, p) && i < |reply| && p < |reply[i].rdata|
      && s' == Go(s, w, Indexing(i, p + 1)).(slots := Poke(s.slots, index, p, reply[i].rdata[p]))
    case Bumping(i) => s' == Go(s, w, Storing(i, s.size))
    case Storing(i, seen) => s' == Go(s, w, Scanning(i + 1)).(size := seen + 1)
    case Testing => s' == Go(s, w, if s.size == 0 then Releasing else Succeeded)
    case Releasing => s' == Go(s, w, Failed).(mutex := None)
    case Failed => s.countMutex.None? && s' == Go(s, w, Counting).(countMutex := Some(w))
    case Counting => s' == Go(s, w, CountRead(s.failCount))
    case CountRead(seen) => s' == Go(s, w, CountDone).(failCount := seen + 1)
    case CountDone => s' == Go(s, w, Counted).(countMutex := None)
    case _ => false
  }

  function NextMain(k: nat): Main {
    if k + 1 >= WORKERS then PollSize else Creating(k + 1)
  }

  /** `th_gethostbyname`, and `getaddrinfo_v6` behind it for a literal host. */
  predicate MainStep(cfg: Config, s: State, s': State)
    requires ValidConfig(cfg) && WORKERS == |s.workers|
  {
    match s.main
    case Creating(k) =>
      && k < WORKERS
      && (s' == Go(s, k, Asking).(main := NextMain(k))
          || s' == Go(s, k, Refused).(main := NextMain(k), serverNum := s.serverNum - 1))
    case PollSize =>
      s' == s.(main := if s.size == 0 then PollFail else if cfg.literal.Some? then Shrinking else ReturnedOk)
    case PollFail => s' == s.(main := if s.failCount == s.serverNum then ReturnedFail else PollSize)
    case Shrinking => s' == s.(main := CountingZeros(0), size := 1)
    case CountingZeros(zeros) =>
      if zeros >= ADDRESS_SIZE then s' == s.(main := Rewriting(zeros, 0))
      else
        && InTable(s, 0, ADDRESS_SIZE - 1 - zeros)
        && s' == s.(main := if s.slots[0][ADDRESS_SIZE - 1 - zeros] == 0 then CountingZeros(zeros + 1) else Rewriting(zeros, 0))
    case Rewriting(zeros, j) =>
      && cfg.literal.Some?
      && var es := Edits(zeros, cfg.literal.value);
         if j >= |es| then s' == s.(main := ReturnedOk)
         else
           && InTable(s, 0, es[j].at)
           && s' == s.(main := Rewriting(zeros, j + 1), slots := Poke(s.slots, 0, es[j].at, es[j].octet))
    case ReturnedOk => false
    case ReturnedFail => false
  }

  predicate Next(cfg: Config, s: State, s': State)
    requires ValidConfig(cfg) && WORKERS == |s.workers|
  {
    MainStep(cfg, s, s') || exists w: nat :: w < WORKERS && WorkerStep(cfg, s, s', w)
  }

  // ----- Invariants -----

  /** The addresses in worker `w`'s reply. */
  function Found(cfg: Config, w: nat): (a: seq<seq<byte>>)
    requires ValidConfig(cfg) && w < WORKERS
    ensures |a| <= MAX_ANSWERS
  {
    Addresses(cfg.replies[w])
  }

  /** Between the lock of dnsquery_mutex and its release, which success never reaches. */
  predicate Holding(p: Worker) {
    p.Scanning? || p.Indexing? || p.Writing? || p.Bumping? || p.Storing? || p.Testing? || p.Releasing? || p.Succeeded?
  }

  predicate HoldsCount(p: Worker) {
    p.Counting? || p.CountRead? || p.CountDone?
  }

  /** How many addresses the worker has appended and counted in `size`. */
  function Appended(cfg: Config, w: nat, p: Worker): nat
    requires ValidConfig(cfg) && w < WORKERS
  {
    match p
    case Scanning(i) => Upto(cfg, w, i)
    case Indexing(i, _) => Upto(cfg, w, i)
    case Writing(i, _, _) => Upto(cfg, w, i)
    case Bumping(i) => Upto(cfg, w, i)
    case Storing(i, _) => Upto(cfg, w, i)
    case Testing => |Found(cfg, w)|
    case Releasing => |Found(cfg, w)|
    case Succeeded => |Found(cfg, w)|
    case _ => 0
  }

  function Upto(cfg: Config, w: nat, i: nat): nat
    requires ValidConfig(cfg) && w < WORKERS
  {
    if i <= |cfg.replies[w]| then |Addresses(cfg.replies[w][..i])| else 0
  }

  predicate AtAddress(cfg: Config, w: nat, i: nat)
    requires ValidConfig(cfg) && w < WORKERS
  {
    i < |cfg.replies[w]| && cfg.replies[w][i].rtype == TYPE_AAAA
  }

  predicate WellPlaced(cfg: Config, w: nat, p: Worker)
    requires ValidConfig(cfg) && w < WORKERS
  {
    match p
    case Scanning(i) => i <= |cfg.replies[w]|
    case Indexing(i, q) => AtAddress(cfg, w, i) && q <= ADDRESS_SIZE
    case Writing(i, q, _) => AtAddress(cfg, w, i) && q < ADDRESS_SIZE
    case Bumping(i) => AtAddress(cfg, w, i)
    case Storing(i, _) => AtAddress(cfg, w, i)
    case Releasing => Found(cfg, w) == []
    case Succeeded => Found(cfg, w) != []
    case _ => true
  }

  /** Main has seen a positive size. */
  predicate SawResult(m: Main) {
    m.Shrinking? || m.CountingZeros? || m.Rewriting? || m.ReturnedOk?
  }

  /** Main has stored `size = 1`. */
  predicate Shrunk(cfg: Config, m: Main) {
    m.CountingZeros? || m.Rewriting? || (m.ReturnedOk? && cfg.literal.Some?)
  }

  /** A value of `size` that a worker may have read: exact until main's store, and positive after it. */
  predicate Plausible(cfg: Config, m: Main, size: nat, appended: nat) {
    if Shrunk(cfg, m) then 1 <= size <= appended else size == appended
  }

  predicate Shape(cfg: Config, s: State)
    requires ValidConfig(cfg)
  {
    && |s.workers| == WORKERS && Table(s.slots)
    && (s.main.Creating? ==> s.main.k < WORKERS)
    && (forall w :: 0 <= w < WORKERS ==> (s.workers[w].Idle? <==> s.main.Creating? && s.main.k <= w))
    && (forall w :: 0 <= w < WORKERS ==> WellPlaced(cfg, w, s.workers[w]))
    && ((s.main.Shrinking? || s.main.CountingZeros? || s.main.Rewriting?) ==> cfg.literal.Some?)
  }

  predicate Locks(s: State)
    requires |s.workers| == WORKERS
  {
    && (s.mutex.Some? ==> s.mutex.value < WORKERS)
    && (s.countMutex.Some? ==> s.countMutex.value < WORKERS)
    && (forall w: nat :: w < WORKERS ==> (Holding(s.workers[w]) <==> s.mutex == Some(w)))
    && (forall w: nat :: w < WORKERS ==> (HoldsCount(s.workers[w]) <==> s.countMutex == Some(w)))
  }

  /** `size` counts what the mutex holder has appended, until main cuts it to 1. */
  predicate Sizes(cfg: Config, s: State)
    requires ValidConfig(cfg) && |s.workers| == WORKERS && (s.mutex.Some? ==> s.mutex.value < WORKERS)
  {
    match s.mutex
    case None => s.size == 0 && !SawResult(s.main)
    case Some(w) =>
      var p := s.workers[w];
      var appended := Appended(cfg, w, p);
      && (SawResult(s.main) ==> appended >= 1)
      && Plausible(cfg, s.main, s.size, appended)
      && (p.Writing? ==> Plausible(cfg, s.main, p.index, appended))
      && (p.Storing? ==> Plausible(cfg, s.main, p.seen, appended))
  }

  /** The address being written, as far as it has come. */
  predicate Partial(slots: seq<seq<byte>>, slots0: seq<seq<byte>>, p: Worker, found: seq<seq<byte>>, n: nat)
    requires Table(slots) && Table(slots0)
  {
    match p
    case Indexing(_, q) => n < MAX_ANSWERS && n < |found| && q <= ADDRESS_SIZE && |found[n]| == ADDRESS_SIZE && slots[n][..q] == found[n][..q]
    case Writing(_, q, _) => n < MAX_ANSWERS && n < |found| && q <= ADDRESS_SIZE && |found[n]| == ADDRESS_SIZE && slots[n][..q] == found[n][..q]
    case Bumping(_) => n < MAX_ANSWERS && n < |found| && slots[n] == found[n]
    case Storing(_, _) => n < MAX_ANSWERS && n < |found| && slots[n] == found[n]
    case _ => n == 0 ==> slots == slots0
  }

  /** What main's rewriting has made of the first address. */
  predicate Rewritten(cfg: Config, m: Main, slot: seq<byte>, first: seq<byte>)
    requires ValidConfig(cfg) && IsAddress(first) && IsAddress(slot)
  {
    match m
    case CountingZeros(z) => slot == first && z <= ADDRESS_SIZE && forall j :: ADDRESS_SIZE - z <= j < ADDRESS_SIZE ==> first[j] == 0
    case Rewriting(z, j) =>
      && cfg.literal.Some? && z == SuffixZeros(first)
      && var es := Edits(z, cfg.literal.value); j <= |es| && slot == Patch(first, es[..j])
    case ReturnedOk => cfg.literal.Some? && slot == Replace(first, cfg.literal.value)
    case _ => true
  }

  /** The table holds what the mutex holder has appended, and main's work on the first address. */
  predicate Slots(cfg: Config, s: State)
    requires ValidConfig(cfg) && |s.workers| == WORKERS && Table(s.slots)
    requires s.mutex.Some? ==> s.mutex.value < WORKERS
  {
    match s.mutex
    case None => s.slots == cfg.slots
    case Some(w) =>
      var p, found := s.workers[w], Found(cfg, w);
      var appended := Appended(cfg, w, p);
      if Shrunk(cfg, s.main) then
        found != [] && IsAddress(found[0]) && Rewritten(cfg, s.main, s.slots[0], found[0])
      else
        && appended <= |found|
        && (forall k :: 0 <= k < appended ==> s.slots[k] == found[k])
        && Partial(s.slots, cfg.slots, p, found, appended)
  }

  function One(b: bool): nat { if b then 1 else 0 }

  function CountedWorkers(ws: seq<Worker>): nat
    requires |ws| == WORKERS
  {
    One(ws[0].CountDone? || ws[0].Counted?) + One(ws[1].CountDone? || ws[1].Counted?) + One(ws[2].CountDone? || ws[2].Counted?)
  }

  function RefusedWorkers(ws: seq<Worker>): nat
    requires |ws| == WORKERS
  {
    One(ws[0].Refused?) + One(ws[1].Refused?) + One(ws[2].Refused?)
  }

  /** The failure count grows by one per counted worker and the server number shrinks by one per refusal. */
  predicate Counts(s: State, failCount: int, serverNum: int)
    requires |s.workers| == WORKERS
  {
    && s.failCount == failCount + CountedWorkers(s.workers)
    && s.serverNum == serverNum - RefusedWorkers(s.workers)
    && forall w :: 0 <= w < WORKERS && s.workers[w].CountRead? ==> s.workers[w].failures == s.failCount
  }

  /** Holds in every reachable state, whatever the two counters started from. */
  predicate Inv(cfg: Config, s: State, failCount: int, serverNum: int)
    requires ValidConfig(cfg)
  {
    Shape(cfg, s) && Locks(s) && Sizes(cfg, s) && Slots(cfg, s) && Counts(s, failCount, serverNum)
  }

  // ----- Facts about replies -----

  lemma UptoStep(cfg: Config, w: nat, i: nat)
    requires ValidConfig(cfg) && w < WORKERS && i < |cfg.replies[w]|
    ensures Upto(cfg, w, i + 1) == Upto(cfg, w, i) + One(AtAddress(cfg, w, i))
    ensures Upto(cfg, w, i) <= |Found(cfg, w)|
    ensures AtAddress(cfg, w, i) ==>
              && Upto(cfg, w, i) < |Found(cfg, w)|
              && Found(cfg, w)[Upto(cfg, w, i)] == cfg.replies[w][i].rdata[..ADDRESS_SIZE]
  {
    var reply := cfg.replies[w];
    AddressesStep(reply, i);
    assert reply == reply[..i + 1] + reply[i + 1..];
    AddressesConcat(reply[..i + 1], reply[i + 1..]);
  }

  lemma UptoEnds(cfg: Config, w: nat)
    requires ValidConfig(cfg) && w < WORKERS
    ensures Upto(cfg, w, 0) == 0 && Upto(cfg, w, |cfg.replies[w]|) == |Found(cfg, w)|
  {
    var reply := cfg.replies[w];
    assert reply[..0] == [] && reply[..|reply|] == reply;
  }

  // ----- What a worker step does to each shared variable -----

  lemma StepTouches(cfg: Config, s: State, s': State, w: nat)
    requires ValidConfig(cfg) && w < WORKERS == |s.workers| && WorkerStep(cfg, s, s', w)
    ensures |s'.workers| == WORKERS && s'.workers == s.workers[w := s'.workers[w]]
    ensures s'.main == s.main && s'.serverNum == s.serverNum
    ensures !s.workers[w].Idle? && !s'.workers[w].Idle? && !s.workers[w].Refused? && !s'.workers[w].Refused?
    ensures !Over(s.workers[w]) || (s.workers[w].CountDone? && s'.workers[w].Counted?)
  {
  }

  lemma StepMutex(cfg: Config, s: State, s': State, w: nat)
    requires ValidConfig(cfg) && w < WORKERS == |s.workers| && WorkerStep(cfg, s, s', w)
    ensures var p, p' := s.workers[w], s'.workers[w];
            && (p.Waiting? ==> s.mutex.None? && p' == Scanning(0))
            && s'.mutex == (if p.Waiting? then Some(w) else if p.Releasing? then None else s.mutex)
            && (Holding(p') <==> p.Waiting? || (Holding(p) && !p.Releasing?))
  {
  }

  lemma StepCountMutex(cfg: Config, s: State, s': State, w: nat)
    requires ValidConfig(cfg) && w < WORKERS == |s.workers| && WorkerStep(cfg, s, s', w)
    ensures var p, p' := s.workers[w], s'.workers[w];
            && (p.Failed? ==> s.countMutex.None?)
            && s'.countMutex == (if p.Failed? then Some(w) else if p.CountDone? then None else s.countMutex)
            && (HoldsCount(p') <==> p.Failed? || (HoldsCount(p) && !p.CountDone?))
  {
  }

  lemma StepCounters(cfg: Config, s: State, s': State, w: nat)
    requires ValidConfig(cfg) && w < WORKERS == |s.workers| && WorkerStep(cfg, s, s', w)
    ensures var p, p' := s.workers[w], s'.workers[w];
            && s'.failCount == (if p.CountRead? then p.failures + 1 else s.failCount)
            && (p'.CountRead? ==> p.Counting? && p'.failures == s.failCount)
            && (p'.CountDone? || p'.Counted? <==> p.CountRead? || p.CountDone? || p.Counted?)
  {
  }

  /** Outside the critical section a worker leaves size and table alone. */
  lemma OutsiderStep(cfg: Config, s: State, s': State, w: nat)
    requires ValidConfig(cfg) && w < WORKERS == |s.workers| && WorkerStep(cfg, s, s', w) && !Holding(s.workers[w])
    ensures s'.size == s.size && s'.slots == s.slots
  {
  }

  // ----- Worker steps keep the invariant -----

  predicate Over(p: Worker) {
    p.Refused? || p.CountDone? || p.Counted?
  }

  lemma WorkerKeepsLocks(cfg: Config, s: State, s': State, w: nat)
    requires ValidConfig(cfg) && w < WORKERS == |s.workers| && Locks(s) && WorkerStep(cfg, s, s', w)
    ensures |s'.workers| == WORKERS && Locks(s')
  {
    StepTouches(cfg, s, s', w);
    StepMutex(cfg, s, s', w);
    StepCountMutex(cfg, s, s', w);
    hide WorkerStep, Holding, HoldsCount, ValidConfig;
    forall v: nat | v < WORKERS
      ensures Holding(s'.workers[v]) <==> s'.mutex == Some(v)
      ensures HoldsCount(s'.workers[v]) <==> s'.countMutex == Some(v)
    {
      NotBoth(s.workers[w]);
      if v != w {
        assert s'.workers[v] == s.workers[v];
      }
    }
  }

  lemma NotBoth(p: Worker)
    ensures p.Waiting? || p.Failed? ==> !Holding(p) && !HoldsCount(p)
    ensures p.Releasing? ==> Holding(p)
    ensures p.CountDone? ==> HoldsCount(p)
    ensures p.CountRead? ==> HoldsCount(p)
  {
  }

  lemma CountedUpdate(ws: seq<Worker>, w: nat, p: Worker)
    requires |ws| == WORKERS && w < WORKERS
    ensures CountedWorkers(ws[w := p]) + One(ws[w].CountDone? || ws[w].Counted?)
            == CountedWorkers(ws) + One(p.CountDone? || p.Counted?)
    ensures RefusedWorkers(ws[w := p]) + One(ws[w].Refused?) == RefusedWorkers(ws) + One(p.Refused?)
  {
  }

  lemma WorkerKeepsCounts(cfg: Config, s: State, s': State, w: nat, failCount: int, serverNum: int)
    requires ValidConfig(cfg) && w < WORKERS == |s.workers| && Locks(s) && WorkerStep(cfg, s, s', w)
    requires Counts(s, failCount, serverNum)
    ensures |s'.workers| == WORKERS && Counts(s', failCount, serverNum)
  {
    StepTouches(cfg, s, s', w);
    StepCounters(cfg, s, s', w);
    CountedUpdate(s.workers, w, s'.workers[w]);
    hide WorkerStep, Holding, ValidConfig, CountedWorkers, RefusedWorkers;
    forall v | 0 <= v < WORKERS && s'.workers[v].CountRead?
      ensures s'.workers[v].failures == s'.failCount
    {
      NotBoth(s.workers[w]);
      NotBoth(s.workers[v]);
      if v != w {
        assert s'.workers[v] == s.workers[v];
      }
    }
  }

  lemma WorkerKeepsShape(cfg: Config, s: State, s': State, w: nat)
    requires ValidConfig(cfg) && w < WORKERS && Shape(cfg, s) && Locks(s) && Sizes(cfg, s) && WorkerStep(cfg, s, s', w)
    ensures Shape(cfg, s')
  {
    StepTouches(cfg, s, s', w);
    StepWellPlaced(cfg, s, s', w);
    hide WorkerStep, WellPlaced, ValidConfig, Sizes, Locks;
    forall v | 0 <= v < WORKERS
      ensures WellPlaced(cfg, v, s'.workers[v])
      ensures s'.workers[v].Idle? <==> s'.main.Creating? && s'.main.k <= v
    {
      if v != w {
        assert s'.workers[v] == s.workers[v];
      }
    }
  }

  lemma StepWellPlaced(cfg: Config, s: State, s': State, w: nat)
    requires ValidConfig(cfg) && w < WORKERS && Shape(cfg, s) && Locks(s) && Sizes(cfg, s) && WorkerStep(cfg, s, s', w)
    ensures |s'.workers| == WORKERS && WellPlaced(cfg, w, s'.workers[w]) && Table(s'.slots)
  {
    assert WellPlaced(cfg, w, s.workers[w]);
    hide Slots, Counts, Addresses;
    if s.workers[w].Testing? {
      assert s.mutex == Some(w);
    }
  }

  lemma HolderKeepsSizes(cfg: Config, s: State, s': State, w: nat)
    requires ValidConfig(cfg) && w < WORKERS && Shape(cfg, s) && s.mutex == Some(w) && Sizes(cfg, s)
    requires WorkerStep(cfg, s, s', w) && Holding(s.workers[w]) && |s'.workers| == WORKERS
    ensures s'.mutex.Some? ==> s'.mutex.value < WORKERS
    ensures Sizes(cfg, s')
  {
    var p := s.workers[w];
    UptoEnds(cfg, w);
    assert WellPlaced(cfg, w, p);
    if p.Storing? || (p.Scanning? && p.i < |cfg.replies[w]|) {
      UptoStep(cfg, w, p.i);
    }
    hide ValidConfig, Table, Addresses, Found, Upto;
  }

  lemma WorkerKeepsSizes(cfg: Config, s: State, s': State, w: nat)
    requires ValidConfig(cfg) && w < WORKERS && Shape(cfg, s) && Locks(s) && Sizes(cfg, s) && WorkerStep(cfg, s, s', w)
    requires |s'.workers| == WORKERS && Locks(s')
    ensures Sizes(cfg, s')
  {
    if Holding(s.workers[w]) {
      HolderKeepsSizes(cfg, s, s', w);
    } else {
      StepTouches(cfg, s, s', w);
      StepMutex(cfg, s, s', w);
      OutsiderStep(cfg, s, s', w);
      UptoEnds(cfg, w);
      hide WorkerStep, ValidConfig, Upto, WellPlaced;
    }
  }

  lemma ScanKeepsSlots(cfg: Config, s: State, s': State, w: nat)
    requires ValidConfig(cfg) && w < WORKERS && Shape(cfg, s) && s.mutex == Some(w) && Sizes(cfg, s) && Slots(cfg, s)
    requires WorkerStep(cfg, s, s', w) && s.workers[w].Scanning?
    requires Shape(cfg, s') && (s'.mutex.Some? ==> s'.mutex.value < WORKERS)
    ensures Slots(cfg, s')
  {
    UptoEnds(cfg, w);
    assert WellPlaced(cfg, w, s.workers[w]);
    var i := s.workers[w].i;
    if i < |cfg.replies[w]| {
      UptoStep(cfg, w, i);
    }
    hide Addresses, Upto, Rewritten, Found, Table, ValidConfig, WellPlaced;
  }

  lemma IndexKeepsSlots(cfg: Config, s: State, s': State, w: nat)
    requires ValidConfig(cfg) && w < WORKERS && Shape(cfg, s) && s.mutex == Some(w) && Sizes(cfg, s) && Slots(cfg, s)
    requires WorkerStep(cfg, s, s', w) && s.workers[w].Indexing?
    requires Shape(cfg, s') && (s'.mutex.Some? ==> s'.mutex.value < WORKERS)
    ensures Slots(cfg, s')
  {
  }

  lemma HolderKeepsSlots(cfg: Config, s: State, s': State, w: nat)
    requires ValidConfig(cfg) && w < WORKERS && Shape(cfg, s) && s.mutex == Some(w) && Sizes(cfg, s) && Slots(cfg, s)
    requires WorkerStep(cfg, s, s', w) && Holding(s.workers[w])
    requires !s.workers[w].Writing? && !s.workers[w].Scanning? && !s.workers[w].Indexing?
    requires Shape(cfg, s') && (s'.mutex.Some? ==> s'.mutex.value < WORKERS)
    ensures Slots(cfg, s')
  {
    assert WellPlaced(cfg, w, s.workers[w]);
    if s.workers[w].Storing? {
      UptoStep(cfg, w, s.workers[w].i);
    }
    hide Addresses, Upto, Rewritten, Found, Table, ValidConfig;
  }

  lemma WriteKeepsSlots(cfg: Config, s: State, s': State, w: nat)
    requires ValidConfig(cfg) && w < WORKERS && Shape(cfg, s) && s.mutex == Some(w) && Sizes(cfg, s) && Slots(cfg, s)
    requires WorkerStep(cfg, s, s', w) && s.workers[w].Writing?
    requires Shape(cfg, s') && s'.mutex == s.mutex
    ensures Slots(cfg, s')
  {
    var i, p, n := s.workers[w].i, s.workers[w].p, s.workers[w].index;
    UptoStep(cfg, w, i);
    assert WellPlaced(cfg, w, s.workers[w]);
    hide Addresses, Upto, Rewritten, Found, WellPlaced, Table;
    if !Shrunk(cfg, s.main) {
      var found, octet := Found(cfg, w), cfg.replies[w][i].rdata[p];
      assert s'.slots[n] == s.slots[n][p := octet];
      assert found[n][p] == octet;
      assert s'.slots[n][..p + 1] == s.slots[n][..p] + [octet];
      assert found[n][..p + 1] == found[n][..p] + [octet];
    }
  }

  lemma WorkerKeepsSlots(cfg: Config, s: State, s': State, w: nat)
    requires ValidConfig(cfg) && w < WORKERS && Shape(cfg, s) && Locks(s) && Sizes(cfg, s) && Slots(cfg, s)
    requires WorkerStep(cfg, s, s', w) && Shape(cfg, s') && Locks(s')
    ensures Slots(cfg, s')
  {
    StepTouches(cfg, s, s', w);
    StepMutex(cfg, s, s', w);
    if s.workers[w].Writing? {
      WriteKeepsSlots(cfg, s, s', w);
    } else if s.workers[w].Scanning? {
      ScanKeepsSlots(cfg, s, s', w);
    } else if s.workers[w].Indexing? {
      IndexKeepsSlots(cfg, s, s', w);
    } else if Holding(s.workers[w]) {
      HolderKeepsSlots(cfg, s, s', w);
    } else {
      OutsiderStep(cfg, s, s', w);
      UptoEnds(cfg, w);
      hide WorkerStep, ValidConfig, Upto, WellPlaced, Rewritten, Found, Table;
    }
  }

  lemma WorkerKeepsInv(cfg: Config, s: State, s': State, w: nat, failCount: int, serverNum: int)
    requires ValidConfig(cfg) && w < WORKERS && Inv(cfg, s, failCount, serverNum) && WorkerStep(cfg, s, s', w)
    ensures Inv(cfg, s', failCount, serverNum)
  {
    assert |s.workers| == WORKERS;
    hide WorkerStep, Shape, Locks, Sizes, Slots, Counts;
    WorkerKeepsLocks(cfg, s, s', w);
    WorkerKeepsCounts(cfg, s, s', w, failCount, serverNum);
    WorkerKeepsShape(cfg, s, s', w);
    WorkerKeepsSizes(cfg, s, s', w);
    WorkerKeepsSlots(cfg, s, s', w);
  }

  // ----- Main's steps keep the invariant -----

  lemma CreationTouches(cfg: Config, s: State, s': State)
    requires ValidConfig(cfg) && |s.workers| == WORKERS && MainStep(cfg, s, s') && s.main.Creating?
    ensures var k := s.main.k;
            && k < WORKERS && s'.main == NextMain(k)
            && s'.workers == s.workers[k := s'.workers[k]] && (s'.workers[k].Asking? || s'.workers[k].Refused?)
            && s'.mutex == s.mutex && s'.countMutex == s.countMutex && s'.size == s.size && s'.slots == s.slots
            && s'.failCount == s.failCount && s'.serverNum == s.serverNum - One(s'.workers[k].Refused?)
  {
  }

  lemma CreationKeepsShape(cfg: Config, s: State, s': State)
    requires ValidConfig(cfg) && Shape(cfg, s) && Locks(s) && MainStep(cfg, s, s') && s.main.Creating?
    ensures Shape(cfg, s') && Locks(s')
  {
  }

  lemma MainCreates(cfg: Config, s: State, s': State, failCount: int, serverNum: int)
    requires ValidConfig(cfg) && Inv(cfg, s, failCount, serverNum) && MainStep(cfg, s, s') && s.main.Creating?
    ensures Inv(cfg, s', failCount, serverNum)
  {
    var k := s.main.k;
    CreationTouches(cfg, s, s');
    CreationKeepsShape(cfg, s, s');
    CountedUpdate(s.workers, k, s'.workers[k]);
    assert s.workers[k].Idle? && !Holding(s.workers[k]);
    assert s.mutex.Some? ==> s'.workers[s.mutex.value] == s.workers[s.mutex.value];
    hide MainStep, ValidConfig, Shape, Locks, Table, CountedWorkers, RefusedWorkers, Upto, Partial, Rewritten, Found;
  }

  lemma MainPolls(cfg: Config, s: State, s': State, failCount: int, serverNum: int)
    requires ValidConfig(cfg) && Inv(cfg, s, failCount, serverNum) && MainStep(cfg, s, s')
    requires s.main.PollSize? || s.main.PollFail?
    ensures Inv(cfg, s', failCount, serverNum)
  {
  }

  lemma MainShrinks(cfg: Config, s: State, s': State, failCount: int, serverNum: int)
    requires ValidConfig(cfg) && Inv(cfg, s, failCount, serverNum) && MainStep(cfg, s, s') && s.main.Shrinking?
    ensures Inv(cfg, s', failCount, serverNum)
  {
  }

  lemma MainCountsZeros(cfg: Config, s: State, s': State, failCount: int, serverNum: int)
    requires ValidConfig(cfg) && Inv(cfg, s, failCount, serverNum) && MainStep(cfg, s, s') && s.main.CountingZeros?
    ensures Inv(cfg, s', failCount, serverNum)
  {
  }

  lemma MainRewrites(cfg: Config, s: State, s': State, failCount: int, serverNum: int)
    requires ValidConfig(cfg) && Inv(cfg, s, failCount, serverNum) && MainStep(cfg, s, s') && s.main.Rewriting?
    ensures Inv(cfg, s', failCount, serverNum)
  {
    var j, first := s.main.j, Found(cfg, s.mutex.value)[0];
    var es := Edits(s.main.zeros, cfg.literal.value);
    if j < |es| {
      PatchStep(first, es, j);
      assert s'.slots[0] == s.slots[0][es[j].at := es[j].octet];
    } else {
      assert es[..j] == es;
    }
    hide CountedWorkers, RefusedWorkers, Upto, WellPlaced, Partial, Holding, HoldsCount, SuffixZeros, Patch, Edits, Found;
  }

  lemma MainKeepsInv(cfg: Config, s: State, s': State, failCount: int, serverNum: int)
    requires ValidConfig(cfg) && Inv(cfg, s, failCount, serverNum) && MainStep(cfg, s, s')
    ensures Inv(cfg, s', failCount, serverNum)
  {
    hide Inv, ValidConfig;
    match s.main
    case Creating(_) => MainCreates(cfg, s, s', failCount, serverNum);
    case Shrinking => MainShrinks(cfg, s, s', failCount, serverNum);
    case CountingZeros(_) => MainCountsZeros(cfg, s, s', failCount, serverNum);
    case Rewriting(_, _) => MainRewrites(cfg, s, s', failCount, serverNum);
    case PollSize => MainPolls(cfg, s, s', failCount, serverNum);
    case PollFail => MainPolls(cfg, s, s', failCount, serverNum);
    case _ =>
  }

  // ----- Runs -----

  /** Any interleaving: every state follows from the one before it by one step. */
  ghost predicate Path(cfg: Config, path: seq<State>)
    requires ValidConfig(cfg)
  {
    path != [] && forall i :: 0 <= i < |path| - 1 ==> |path[i].workers| == WORKERS && Next(cfg, path[i], path[i + 1])
  }

  /** Any interleaving of a call. */
  ghost predicate Run(cfg: Config, tr: seq<State>, failCount: int, serverNum: int)
    requires ValidConfig(cfg)
  {
    Path(cfg, tr) && Init(cfg, tr[0], failCount, serverNum)
  }

  lemma InitInv(cfg: Config, s: State, failCount: int, serverNum: int)
    requires ValidConfig(cfg) && Init(cfg, s, failCount, serverNum)
    ensures Inv(cfg, s, failCount, serverNum)
  {
  }

  lemma NextKeepsInv(cfg: Config, s: State, s': State, failCount: int, serverNum: int)
    requires ValidConfig(cfg) && Inv(cfg, s, failCount, serverNum) && |s.workers| == WORKERS && Next(cfg, s, s')
    ensures Inv(cfg, s', failCount, serverNum)
  {
    hide Inv, ValidConfig, WorkerStep, MainStep;
    if MainStep(cfg, s, s') {
      MainKeepsInv(cfg, s, s', failCount, serverNum);
    } else {
      var w: nat :| w < WORKERS && WorkerStep(cfg, s, s', w);
      WorkerKeepsInv(cfg, s, s', w, failCount, serverNum);
    }
  }

  lemma {:induction false} RunInv(cfg: Config, tr: seq<State>, failCount: int, serverNum: int, i: nat)
    requires ValidConfig(cfg) && Run(cfg, tr, failCount, serverNum) && i < |tr|
    ensures Inv(cfg, tr[i], failCount, serverNum)
  {
    if i == 0 {
      InitInv(cfg, tr[0], failCount, serverNum);
    } else {
      RunInv(cfg, tr, failCount, serverNum, i - 1);
      RunNext(cfg, tr, failCount, serverNum, i - 1);
      hide Inv, ValidConfig, Init, Run, Next;
      NextKeepsInv(cfg, tr[i - 1], tr[i], failCount, serverNum);
    }
  }

  // ----- One reply only -----

  /**
   Up to main's store of 1, the first `size` entries of the table are the first `size` addresses of the
   mutex holder's reply, never a mix; and `size` never exceeds the table.
   */
  lemma OneReplyOnly(cfg: Config, tr: seq<State>, failCount: int, serverNum: int, i: nat)
    requires ValidConfig(cfg) && Run(cfg, tr, failCount, serverNum) && i < |tr|
    ensures var s := tr[i];
            && s.size <= MAX_ANSWERS == |s.slots|
            && (s.size > 0 ==>
                  && s.mutex.Some? && s.mutex.value < WORKERS && s.size <= |Found(cfg, s.mutex.value)|
                  && (!Shrunk(cfg, s.main) ==> s.slots[..s.size] == Found(cfg, s.mutex.value)[..s.size]))
  {
    RunInv(cfg, tr, failCount, serverNum, i);
    AppendedBound(cfg, tr[i], failCount, serverNum);
  }

  lemma AppendedBound(cfg: Config, s: State, failCount: int, serverNum: int)
    requires ValidConfig(cfg) && Inv(cfg, s, failCount, serverNum)
    ensures s.mutex.Some? ==> s.mutex.value < WORKERS == |s.workers|
                              && Appended(cfg, s.mutex.value, s.workers[s.mutex.value]) <= |Found(cfg, s.mutex.value)|
  {
    if s.mutex.Some? {
      var w := s.mutex.value;
      assert WellPlaced(cfg, w, s.workers[w]);
      UptoEnds(cfg, w);
      match s.workers[w]
      case Scanning(i) => if i < |cfg.replies[w]| { UptoStep(cfg, w, i); }
      case Indexing(i, _) => UptoStep(cfg, w, i);
      case Writing(i, _, _) => UptoStep(cfg, w, i);
      case Bumping(i) => UptoStep(cfg, w, i);
      case Storing(i, _) => UptoStep(cfg, w, i);
      case _ =>
    }
  }

  /** No octet is ever stored outside the table, before or after main's store of 1. */
  lemma WritesStayInTable(cfg: Config, s: State, w: nat, failCount: int, serverNum: int)
    requires ValidConfig(cfg) && Inv(cfg, s, failCount, serverNum) && w < WORKERS && s.workers[w].Writing?
    ensures InTable(s, s.workers[w].index, s.workers[w].p)
    ensures s.size > 0 ==> s.workers[w].index > 0
  {
  }

  // ----- The first address -----

  /** A worker that has found addresses never gives the mutex back, so nobody else gets it. */
  lemma WinnerStays(cfg: Config, s: State, s': State, failCount: int, serverNum: int)
    requires ValidConfig(cfg) && Inv(cfg, s, failCount, serverNum) && |s.workers| == WORKERS && Next(cfg, s, s')
    requires s.mutex.Some? && s.mutex.value < WORKERS && Found(cfg, s.mutex.value) != []
    ensures s'.mutex == s.mutex
  {
  }

  /** Once size is positive no worker step changes the first address. */
  lemma WorkerLeavesFirst(cfg: Config, s: State, s': State, w: nat, failCount: int, serverNum: int)
    requires ValidConfig(cfg) && Inv(cfg, s, failCount, serverNum) && w < WORKERS && WorkerStep(cfg, s, s', w)
    requires s.size > 0
    ensures |s'.slots| == |s.slots| && s'.slots[0] == s.slots[0] && s'.size > 0
  {
  }

  lemma RunNext(cfg: Config, tr: seq<State>, failCount: int, serverNum: int, i: nat)
    requires ValidConfig(cfg) && Run(cfg, tr, failCount, serverNum) && i + 1 < |tr|
    ensures |tr[i].workers| == WORKERS && Next(cfg, tr[i], tr[i + 1])
  {
  }

  lemma PositiveHasWinner(cfg: Config, s: State, failCount: int, serverNum: int)
    requires ValidConfig(cfg) && Inv(cfg, s, failCount, serverNum) && s.size > 0
    ensures s.mutex.Some? && s.mutex.value < WORKERS && Found(cfg, s.mutex.value) != []
  {
  }

  lemma PositiveStays(cfg: Config, s: State, s': State, failCount: int, serverNum: int)
    requires ValidConfig(cfg) && Inv(cfg, s, failCount, serverNum) && |s.workers| == WORKERS && Next(cfg, s, s')
    requires s.size > 0
    ensures s.mutex.Some? && s.mutex.value < WORKERS && Found(cfg, s.mutex.value) != []
    ensures s'.mutex == s.mutex && s'.size > 0
  {
  }

  /**
   From the moment size is positive it stays positive, also across main's unsynchronized store of 1,
   and the same worker holds the mutex for good: the first server with an address wins.
   */
  lemma {:induction false} WinnerFixed(cfg: Config, tr: seq<State>, failCount: int, serverNum: int, i: nat, j: nat)
    requires ValidConfig(cfg) && Run(cfg, tr, failCount, serverNum) && i <= j < |tr| && tr[i].size > 0
    ensures tr[i].mutex.Some? && tr[i].mutex.value < WORKERS && Found(cfg, tr[i].mutex.value) != []
    ensures tr[j].mutex == tr[i].mutex && tr[j].size > 0
  {
    hide Run, Inv, ValidConfig, Next, Found;
    if i == j {
      RunInv(cfg, tr, failCount, serverNum, i);
      PositiveHasWinner(cfg, tr[i], failCount, serverNum);
    } else {
      RunInv(cfg, tr, failCount, serverNum, j - 1);
      RunNext(cfg, tr, failCount, serverNum, j - 1);
      WinnerFixed(cfg, tr, failCount, serverNum, i, j - 1);
      PositiveStays(cfg, tr[j - 1], tr[j], failCount, serverNum);
    }
  }

  lemma {:induction false} FoundAddresses(rs: seq<Record>)
    requires AddressesWhole(rs)
    ensures forall a :: a in Addresses(rs) ==> IsAddress(a)
  {
    if rs != [] {
      assert AddressesWhole(rs[1..]) by {
        assert forall k :: 0 <= k < |rs| - 1 ==> rs[1..][k] == rs[k + 1];
      }
      FoundAddresses(rs[1..]);
      assert rs[0].rtype == TYPE_AAAA ==> |rs[0].rdata| >= ADDRESS_SIZE;
    }
  }

  /**
   The first address from then on, in every interleaving: the winner's first address until main
   rewrites it, and at the end, for a literal host, exactly that address with the literal put in.
   */
  lemma FirstAddress(cfg: Config, tr: seq<State>, failCount: int, serverNum: int, i: nat, j: nat)
    requires ValidConfig(cfg) && Run(cfg, tr, failCount, serverNum) && i <= j < |tr| && tr[i].size > 0
    ensures tr[i].mutex.Some? && tr[i].mutex.value < WORKERS && Found(cfg, tr[i].mutex.value) != []
    ensures var first := Found(cfg, tr[i].mutex.value)[0];
            && |tr[j].slots| == MAX_ANSWERS && IsAddress(first)
            && (!Shrunk(cfg, tr[j].main) ==> tr[j].slots[0] == first)
            && (cfg.literal.Some? && tr[j].main.ReturnedOk? ==> tr[j].slots[0] == Replace(first, cfg.literal.value))
  {
    WinnerFixed(cfg, tr, failCount, serverNum, i, j);
    RunInv(cfg, tr, failCount, serverNum, j);
    var w := tr[i].mutex.value;
    FoundAddresses(cfg.replies[w]);
    assert Found(cfg, w)[0] in Found(cfg, w);
    hide Run, WellPlaced, Addresses, Holding, HoldsCount, Counts, Partial;
  }

  /**
   Synthesis end to end: when the winner's first address embeds some IPv4 address recoverably, the
   table ends with the direct embedding of the literal under the same prefix.
   */
  lemma LiteralSynthesized(cfg: Config, tr: seq<State>, failCount: int, serverNum: int, i: nat, j: nat,
                           pl: int, prefix: seq<byte>, w: seq<byte>)
    requires ValidConfig(cfg) && Run(cfg, tr, failCount, serverNum) && i <= j < |tr| && tr[i].size > 0
    requires cfg.literal.Some? && tr[j].main.ReturnedOk?
    requires PrefixLength(pl) && IsAddress(prefix) && IsV4(w) && Recoverable(pl, prefix, w)
    requires tr[i].mutex.Some? && tr[i].mutex.value < WORKERS && Found(cfg, tr[i].mutex.value) != []
    requires Found(cfg, tr[i].mutex.value)[0] == Embed(pl, prefix, w)
    ensures tr[j].slots != [] && tr[j].slots[0] == Embed(pl, prefix, cfg.literal.value)
  {
    FirstAddress(cfg, tr, failCount, serverNum, i, j);
    ReplaceRefinesEmbed(pl, prefix, w);
    assert IsV4(cfg.literal.value);
  }

  // ----- Return values -----

  /** 0 is returned only when there is a result. */
  lemma ZeroMeansResult(cfg: Config, tr: seq<State>, failCount: int, serverNum: int, i: nat)
    requires ValidConfig(cfg) && Run(cfg, tr, failCount, serverNum) && i < |tr| && tr[i].main.ReturnedOk?
    ensures tr[i].size > 0 && tr[i].mutex.Some? && tr[i].mutex.value < WORKERS
    ensures Found(cfg, tr[i].mutex.value) != []
  {
    RunInv(cfg, tr, failCount, serverNum, i);
    AppendedBound(cfg, tr[i], failCount, serverNum);
  }

  ghost predicate AllOver(s: State) {
    forall w :: 0 <= w < |s.workers| ==> Over(s.workers[w])
  }

  /** Workers counted and workers refused make up all three only when every worker is over. */
  lemma CountsMeet(s: State, failCount: int, serverNum: int)
    requires |s.workers| == WORKERS && Counts(s, failCount, serverNum)
    ensures s.failCount - s.serverNum <= failCount - serverNum + WORKERS
    ensures s.failCount - s.serverNum == failCount - serverNum + WORKERS <==> AllOver(s)
  {
  }

  lemma MainKeepsFailure(cfg: Config, s: State, s': State, failCount: int, serverNum: int)
    requires ValidConfig(cfg) && |s.workers| == WORKERS && MainStep(cfg, s, s') && Counts(s, failCount, serverNum)
    requires serverNum - failCount >= WORKERS || serverNum < failCount
    ensures s'.main.ReturnedFail? ==> AllOver(s')
  {
  }

  lemma WorkerKeepsOver(cfg: Config, s: State, s': State, w: nat)
    requires ValidConfig(cfg) && w < WORKERS == |s.workers| && WorkerStep(cfg, s, s', w) && AllOver(s)
    ensures AllOver(s')
  {
    StepTouches(cfg, s, s', w);
    hide WorkerStep, ValidConfig;
  }

  lemma {:induction false} FailureKept(cfg: Config, tr: seq<State>, failCount: int, serverNum: int, i: nat)
    requires ValidConfig(cfg) && Run(cfg, tr, failCount, serverNum) && i < |tr|
    requires serverNum - failCount >= WORKERS || serverNum < failCount
    ensures tr[i].main.ReturnedFail? ==> AllOver(tr[i])
  {
    if i > 0 {
      var s, s' := tr[i - 1], tr[i];
      FailureKept(cfg, tr, failCount, serverNum, i - 1);
      RunInv(cfg, tr, failCount, serverNum, i - 1);
      RunNext(cfg, tr, failCount, serverNum, i - 1);
      assert Counts(s, failCount, serverNum);
      hide Run, Inv, AllOver, WorkerStep, MainStep, Counts, ValidConfig;
      if MainStep(cfg, s, s') {
        MainKeepsFailure(cfg, s, s', failCount, serverNum);
      } else {
        var w: nat :| w < WORKERS && WorkerStep(cfg, s, s', w);
        StepTouches(cfg, s, s', w);
        if s'.main.ReturnedFail? {
          WorkerKeepsOver(cfg, s, s', w);
        }
      }
    } else {
      assert tr[0].main == Creating(0);
    }
  }

  /**
   Starting values of the two counters under which a returned failure can be relied on. On the first
   call of a process they are 0 and 3; neither is reset afterwards.
   */
  predicate TrustworthyCounters(failCount: int, serverNum: int) {
    !(0 <= serverNum - failCount < WORKERS)
  }

  function EarlyWorker(refused: nat, w: nat): Worker { if w < refused then Refused else Asking }

  /** The state after main has tried to create `k` workers, of which the first `refused` failed. */
  function EarlyState(cfg: Config, failCount: int, serverNum: int, refused: nat, k: nat, main: Main): State {
    State([if k > 0 then EarlyWorker(refused, 0) else Idle,
           if k > 1 then EarlyWorker(refused, 1) else Idle,
           if k > 2 then EarlyWorker(refused, 2) else Idle],
          main, None, None, 0, cfg.slots, failCount, serverNum - if k < refused then k else refused)
  }

  /** A run in which main tries to create all workers and `refused` of them cannot be created. */
  lemma CreationRun(cfg: Config, failCount: int, serverNum: int, refused: nat) returns (tr: seq<State>)
    requires ValidConfig(cfg) && refused <= WORKERS
    ensures Run(cfg, tr, failCount, serverNum) && |tr| == 4
    ensures tr[3] == EarlyState(cfg, failCount, serverNum, refused, WORKERS, PollSize)
  {
    tr := [EarlyState(cfg, failCount, serverNum, refused, 0, Creating(0)),
           EarlyState(cfg, failCount, serverNum, refused, 1, Creating(1)),
           EarlyState(cfg, failCount, serverNum, refused, 2, Creating(2)),
           EarlyState(cfg, failCount, serverNum, refused, WORKERS, PollSize)];
    EarlyCreation(cfg, failCount, serverNum, refused, 0);
    EarlyCreation(cfg, failCount, serverNum, refused, 1);
    EarlyCreation(cfg, failCount, serverNum, refused, 2);
    assert Init(cfg, tr[0], failCount, serverNum);
    hide MainStep, WorkerStep, ValidConfig, Init;
  }

  lemma EarlyCreation(cfg: Config, failCount: int, serverNum: int, refused: nat, k: nat)
    requires ValidConfig(cfg) && refused <= WORKERS && k < WORKERS
    ensures MainStep(cfg, EarlyState(cfg, failCount, serverNum, refused, k, Creating(k)),
                     EarlyState(cfg, failCount, serverNum, refused, k + 1, NextMain(k)))
  {
  }

  lemma RunExtends(cfg: Config, tr: seq<State>, failCount: int, serverNum: int, s: State)
    requires ValidConfig(cfg) && Run(cfg, tr, failCount, serverNum)
    requires |tr[|tr| - 1].workers| == WORKERS && Next(cfg, tr[|tr| - 1], s)
    ensures Run(cfg, tr + [s], failCount, serverNum)
  {
    hide Next, ValidConfig, Init;
  }

  /** With stale counters main gives up although a worker is still asking. */
  lemma EarlyFailure(cfg: Config, failCount: int, serverNum: int) returns (tr: seq<State>)
    requires ValidConfig(cfg) && !TrustworthyCounters(failCount, serverNum)
    ensures Run(cfg, tr, failCount, serverNum) && |tr| == 6 && tr[5].main.ReturnedFail? && !AllOver(tr[5])
  {
    tr := CreationRun(cfg, failCount, serverNum, serverNum - failCount);
    var f, g := tr[3].(main := PollFail), tr[3].(main := ReturnedFail);
    assert MainStep(cfg, tr[3], f) && MainStep(cfg, f, g);
    RunExtends(cfg, tr, failCount, serverNum, f);
    RunExtends(cfg, tr + [f], failCount, serverNum, g);
    tr := tr + [f] + [g];
    assert !Over(g.workers[2]);
  }

  /**
   In every run, a returned failure means that every started worker has failed, exactly when the
   counters start out trustworthy: on the first call, or when the failure count is already past reach.
   */
  lemma FailureMeansAllFailed(cfg: Config, failCount: int, serverNum: int)
    requires ValidConfig(cfg)
    ensures (forall tr: seq<State>, i :: Run(cfg, tr, failCount, serverNum) && 0 <= i < |tr| && tr[i].main.ReturnedFail? ==> AllOver(tr[i]))
            <==> TrustworthyCounters(failCount, serverNum)
  {
    if TrustworthyCounters(failCount, serverNum) {
      forall tr: seq<State>, i | Run(cfg, tr, failCount, serverNum) && 0 <= i < |tr| && tr[i].main.ReturnedFail?
        ensures AllOver(tr[i])
      {
        FailureKept(cfg, tr, failCount, serverNum, i);
      }
    } else {
      var tr := EarlyFailure(cfg, failCount, serverNum);
      assert tr[5].main.ReturnedFail?;
    }
  }

  /**
   How the counters become stale: a first call leaves them trustworthy for the next one exactly as long
   as no worker of its own has been refused or counted, and never when it returns a failure.
   */
  lemma CountersGoStale(cfg: Config, tr: seq<State>, i: nat)
    requires ValidConfig(cfg) && Run(cfg, tr, 0, WORKERS) && i < |tr|
    ensures |tr[i].workers| == WORKERS
    ensures TrustworthyCounters(tr[i].failCount, tr[i].serverNum) <==> forall w :: 0 <= w < WORKERS ==> !Over(tr[i].workers[w])
    ensures tr[i].main.ReturnedFail?
            ==> tr[i].failCount == tr[i].serverNum && !TrustworthyCounters(tr[i].failCount, tr[i].serverNum)
  {
    RunInv(cfg, tr, 0, WORKERS, i);
    FailureKept(cfg, tr, 0, WORKERS, i);
    CountsMeet(tr[i], 0, WORKERS);
  }

  /** On a first call a returned failure also means that nothing was appended. */
  lemma FailureMeansNothing(cfg: Config, tr: seq<State>, i: nat)
    requires ValidConfig(cfg) && Run(cfg, tr, 0, WORKERS) && i < |tr| && tr[i].main.ReturnedFail?
    ensures AllOver(tr[i]) && tr[i].size == 0 && tr[i].slots == cfg.slots && tr[i].mutex == None
  {
    FailureKept(cfg, tr, 0, WORKERS, i);
    RunInv(cfg, tr, 0, WORKERS, i);
  }

  // ----- Conservation of workers -----

  predicate Running(p: Worker) { p.Asking? || (Holding(p) && !p.Succeeded?) }

  predicate Uncounted(p: Worker) { p.Failed? || p.Counting? || p.CountRead? }

  function Tally(a: bool, b: bool, c: bool): nat { One(a) + One(b) + One(c) }

  /** After creation every worker is running, blocked, successful, failed but not counted, or counted. */
  lemma WorkersConserved(cfg: Config, tr: seq<State>, i: nat)
    requires ValidConfig(cfg) && Run(cfg, tr, 0, WORKERS) && i < |tr| && !tr[i].main.Creating?
    ensures |tr[i].workers| == WORKERS
    ensures var ws := tr[i].workers;
            Tally(Running(ws[0]), Running(ws[1]), Running(ws[2]))
            + Tally(ws[0].Waiting?, ws[1].Waiting?, ws[2].Waiting?)
            + Tally(ws[0].Succeeded?, ws[1].Succeeded?, ws[2].Succeeded?)
            + Tally(Uncounted(ws[0]), Uncounted(ws[1]), Uncounted(ws[2]))
            + tr[i].failCount == tr[i].serverNum
    ensures Tally(tr[i].workers[0].Succeeded?, tr[i].workers[1].Succeeded?, tr[i].workers[2].Succeeded?) <= 1
  {
    RunInv(cfg, tr, 0, WORKERS, i);
    var s := tr[i];
    assert |s.workers| == WORKERS && Locks(s) && Counts(s, 0, WORKERS);
    assert !s.workers[0].Idle? && !s.workers[1].Idle? && !s.workers[2].Idle?;
    hide Run, Inv, Running, Uncounted;
    Balance(s.workers);
    OneWinner(s);
  }

  lemma Balance(ws: seq<Worker>)
    requires |ws| == WORKERS && !ws[0].Idle? && !ws[1].Idle? && !ws[2].Idle?
    ensures Tally(Running(ws[0]), Running(ws[1]), Running(ws[2]))
            + Tally(ws[0].Waiting?, ws[1].Waiting?, ws[2].Waiting?)
            + Tally(ws[0].Succeeded?, ws[1].Succeeded?, ws[2].Succeeded?)
            + Tally(Uncounted(ws[0]), Uncounted(ws[1]), Uncounted(ws[2]))
            + CountedWorkers(ws) + RefusedWorkers(ws) == WORKERS
  {
    OneCategory(ws[0]);
    OneCategory(ws[1]);
    OneCategory(ws[2]);
    hide Running, Uncounted;
  }

  lemma OneWinner(s: State)
    requires |s.workers| == WORKERS && Locks(s)
    ensures Tally(s.workers[0].Succeeded?, s.workers[1].Succeeded?, s.workers[2].Succeeded?) <= 1
  {
    assert forall w: nat :: w < WORKERS && s.workers[w].Succeeded? ==> Holding(s.workers[w]) && s.mutex == Some(w);
  }

  lemma OneCategory(p: Worker)
    requires !p.Idle?
    ensures One(Running(p)) + One(p.Waiting?) + One(p.Succeeded?) + One(Uncounted(p))
            + One(p.CountDone? || p.Counted?) + One(p.Refused?) == 1
    ensures p.Succeeded? ==> Holding(p)
  {
  }

  // ----- Polling ends -----

  /** A worker that can never move again unless another one does. */
  predicate Parked(s: State, p: Worker) {
    p.Refused? || p.Counted? || p.Succeeded? || (p.Waiting? && s.mutex.Some?) || (p.Failed? && s.countMutex.Some?)
  }

  lemma CanMove(cfg: Config, s: State, w: nat, failCount: int, serverNum: int) returns (s': State)
    requires ValidConfig(cfg) && Inv(cfg, s, failCount, serverNum) && w < WORKERS
    requires !s.workers[w].Idle? && !Parked(s, s.workers[w])
    ensures WorkerStep(cfg, s, s', w)
  {
    assert WellPlaced(cfg, w, s.workers[w]);
    if s.workers[w].Writing? {
      WritesStayInTable(cfg, s, w, failCount, serverNum);
    }
    hide Inv, Sizes, Slots, Counts, Locks, Found, Table;
    var reply := cfg.replies[w];
    match s.workers[w]
    case Asking => s' := Go(s, w, Waiting);
    case Waiting => s' := Go(s, w, Scanning(0)).(mutex := Some(w));
    case Scanning(i) =>
      s' := Go(s, w, if i >= |reply| then Testing
                     else if reply[i].rtype == TYPE_AAAA then Indexing(i, 0) else Scanning(i + 1));
    case Indexing(i, p) => s' := Go(s, w, if p < ADDRESS_SIZE then Writing(i, p, s.size) else Bumping(i));
    case Writing(i, p, index) =>
      s' := Go(s, w, Indexing(i, p + 1)).(slots := Poke(s.slots, index, p, reply[i].rdata[p]));
    case Bumping(i) => s' := Go(s, w, Storing(i, s.size));
    case Storing(i, seen) => s' := Go(s, w, Scanning(i + 1)).(size := seen + 1);
    case Testing => s' := Go(s, w, if s.size == 0 then Releasing else Succeeded);
    case Releasing => s' := Go(s, w, Failed).(mutex := None);
    case Failed => s' := Go(s, w, Counting).(countMutex := Some(w));
    case Counting => s' := Go(s, w, CountRead(s.failCount));
    case CountRead(failures) => s' := Go(s, w, CountDone).(failCount := failures + 1);
    case CountDone => s' := Go(s, w, Counted).(countMutex := None);
  }

  /** All workers are created and none of them can take a step. */
  ghost predicate Quiescent(cfg: Config, s: State)
    requires ValidConfig(cfg)
  {
    |s.workers| == WORKERS && !s.main.Creating? && forall w: nat, s' :: w < WORKERS ==> !WorkerStep(cfg, s, s', w)
  }

  /** What main polls for: a result, or the full failure count. */
  predicate Decided(s: State) { s.size > 0 || s.failCount == s.serverNum }

  lemma QuiescentParked(cfg: Config, s: State, failCount: int, serverNum: int)
    requires ValidConfig(cfg) && Inv(cfg, s, failCount, serverNum) && Quiescent(cfg, s)
    ensures forall w: nat :: w < WORKERS ==> Parked(s, s.workers[w])
  {
    forall w: nat | w < WORKERS
      ensures Parked(s, s.workers[w])
    {
      if !Parked(s, s.workers[w]) {
        var s' := CanMove(cfg, s, w, failCount, serverNum);
      }
    }
  }

  /** Workers that cannot move have produced a result, or all of them are over. */
  lemma ParkedDecides(cfg: Config, s: State, failCount: int, serverNum: int)
    requires ValidConfig(cfg) && Inv(cfg, s, failCount, serverNum) && forall w: nat :: w < WORKERS ==> Parked(s, s.workers[w])
    ensures s.size > 0 || AllOver(s)
  {
  }

  /** Any other distance of the counters: no worker can be created, and main polls for what never comes. */
  lemma StuckPoll(cfg: Config, failCount: int, serverNum: int) returns (tr: seq<State>)
    requires ValidConfig(cfg) && serverNum - failCount != WORKERS
    ensures Run(cfg, tr, failCount, serverNum)
    ensures |tr| == 4 && Quiescent(cfg, tr[3]) && !Decided(tr[3]) && tr[3].main == PollSize
  {
    tr := CreationRun(cfg, failCount, serverNum, WORKERS);
  }

  /**
   Main never polls forever behind workers that have all stopped, exactly when the counters start out
   as far apart as there are workers. On a first call they do.
   */
  lemma QuiescenceDecides(cfg: Config, failCount: int, serverNum: int)
    requires ValidConfig(cfg)
    ensures (forall tr: seq<State>, i :: Run(cfg, tr, failCount, serverNum) && 0 <= i < |tr| && Quiescent(cfg, tr[i]) ==> Decided(tr[i]))
            <==> serverNum - failCount == WORKERS
  {
    if serverNum - failCount == WORKERS {
      forall tr: seq<State>, i | Run(cfg, tr, failCount, serverNum) && 0 <= i < |tr| && Quiescent(cfg, tr[i])
        ensures Decided(tr[i])
      {
        RunInv(cfg, tr, failCount, serverNum, i);
        QuiescentParked(cfg, tr[i], failCount, serverNum);
        ParkedDecides(cfg, tr[i], failCount, serverNum);
        CountsMeet(tr[i], failCount, serverNum);
      }
    } else {
      var tr := StuckPoll(cfg, failCount, serverNum);
    }
  }

  /** Behind stopped workers an undecided poll goes on in every continuation and nothing else happens. */
  lemma {:induction false} UndecidedPolls(cfg: Config, tr: seq<State>, failCount: int, serverNum: int, i: nat, j: nat)
    requires ValidConfig(cfg) && Run(cfg, tr, failCount, serverNum) && i <= j < |tr|
    requires Quiescent(cfg, tr[i]) && !Decided(tr[i]) && (tr[i].main.PollSize? || tr[i].main.PollFail?)
    ensures tr[j] == tr[i].(main := tr[j].main) && (tr[j].main.PollSize? || tr[j].main.PollFail?)
  {
    hide Run, ValidConfig, Next, Quiescent;
    if i < j {
      UndecidedPolls(cfg, tr, failCount, serverNum, i, j - 1);
      RunNext(cfg, tr, failCount, serverNum, j - 1);
      StillQuiescent(cfg, tr[i], tr[j - 1]);
      OnlyPolls(cfg, tr[j - 1], tr[j]);
    }
  }

  lemma OnlyPolls(cfg: Config, s: State, s': State)
    requires ValidConfig(cfg) && Quiescent(cfg, s) && !Decided(s) && (s.main.PollSize? || s.main.PollFail?) && Next(cfg, s, s')
    ensures s' == s.(main := s'.main) && (s'.main.PollSize? || s'.main.PollFail?)
  {
    hide WorkerStep, ValidConfig;
  }

  /** Whether a worker can step does not depend on main. */
  lemma StillQuiescent(cfg: Config, s: State, s': State)
    requires ValidConfig(cfg) && Quiescent(cfg, s) && s' == s.(main := s'.main) && !s'.main.Creating?
    ensures Quiescent(cfg, s')
  {
    forall w: nat, t | w < WORKERS
      ensures !WorkerStep(cfg, s', t, w)
    {
      if WorkerStep(cfg, s', t, w) {
        assert WorkerStep(cfg, s, t.(main := s.main), w);
      }
    }
  }

  // ----- The size after main's store -----

  /** The worker has appended every address of its reply. */
  predicate Complete(cfg: Config, w: nat, p: Worker)
    requires ValidConfig(cfg) && w < WORKERS
  {
    Found(cfg, w) != [] && Appended(cfg, w, p) == |Found(cfg, w)|
  }

  lemma CompleteHolderStep(cfg: Config, s: State, s': State, w: nat)
    requires ValidConfig(cfg) && Shape(cfg, s) && w < WORKERS && WorkerStep(cfg, s, s', w) && s.mutex == Some(w)
    requires Holding(s.workers[w]) && Complete(cfg, w, s.workers[w])
    ensures |s'.workers| == WORKERS && Complete(cfg, w, s'.workers[w])
    ensures s'.mutex == s.mutex && s'.size == s.size && s'.slots == s.slots && s'.main == s.main
  {
    var p := s.workers[w];
    assert WellPlaced(cfg, w, p);
    UptoEnds(cfg, w);
    if (p.Scanning? && p.i < |cfg.replies[w]|) || p.Indexing? || p.Writing? || p.Bumping? || p.Storing? {
      UptoStep(cfg, w, p.i);
    }
    hide ValidConfig, Table, Addresses, Found, Upto;
  }

  /** From here on only main writes size and table. */
  lemma CompleteStep(cfg: Config, s: State, s': State, failCount: int, serverNum: int)
    requires ValidConfig(cfg) && Inv(cfg, s, failCount, serverNum) && |s.workers| == WORKERS && Next(cfg, s, s')
    requires s.mutex.Some? && s.mutex.value < WORKERS && Complete(cfg, s.mutex.value, s.workers[s.mutex.value])
    ensures s'.mutex == s.mutex && |s'.workers| == WORKERS && Complete(cfg, s.mutex.value, s'.workers[s.mutex.value])
    ensures Shrunk(cfg, s.main) ==> Shrunk(cfg, s'.main)
    ensures s'.size == if Shrunk(cfg, s'.main) && !Shrunk(cfg, s.main) then 1 else s.size
    ensures |s'.slots| == |s.slots| > 0 && s'.slots[1..] == s.slots[1..]
  {
    var h := s.mutex.value;
    assert Holding(s.workers[h]);
    if MainStep(cfg, s, s') {
      CompleteMainStep(cfg, s, s', h);
    } else {
      var w: nat :| w < WORKERS && WorkerStep(cfg, s, s', w);
      if w == h {
        CompleteHolderStep(cfg, s, s', w);
      } else {
        StepTouches(cfg, s, s', w);
        StepMutex(cfg, s, s', w);
        OutsiderStep(cfg, s, s', w);
        hide WorkerStep, MainStep, Complete;
        assert s'.workers[h] == s.workers[h];
      }
    }
  }

  lemma CompleteMainStep(cfg: Config, s: State, s': State, h: nat)
    requires ValidConfig(cfg) && Shape(cfg, s) && MainStep(cfg, s, s') && h < WORKERS && Holding(s.workers[h])
    ensures s'.mutex == s.mutex && |s'.workers| == WORKERS && s'.workers[h] == s.workers[h]
    ensures Shrunk(cfg, s.main) ==> Shrunk(cfg, s'.main)
    ensures s'.size == if Shrunk(cfg, s'.main) && !Shrunk(cfg, s.main) then 1 else s.size
    ensures |s'.slots| == |s.slots| > 0 && s'.slots[1..] == s.slots[1..]
  {
    hide Edits;
  }

  /**
   Once the winner has appended its last address, size changes only by main's store of 1, and no row
   behind the first one changes at all.
   */
  lemma {:induction false} SizeSettles(cfg: Config, tr: seq<State>, failCount: int, serverNum: int, i: nat, j: nat)
    requires ValidConfig(cfg) && Run(cfg, tr, failCount, serverNum) && i <= j < |tr|
    requires tr[i].mutex.Some? && tr[i].mutex.value < WORKERS == |tr[i].workers|
    requires Complete(cfg, tr[i].mutex.value, tr[i].workers[tr[i].mutex.value])
    ensures tr[j].mutex == tr[i].mutex && |tr[j].workers| == WORKERS
    ensures Complete(cfg, tr[i].mutex.value, tr[j].workers[tr[i].mutex.value])
    ensures Shrunk(cfg, tr[i].main) ==> Shrunk(cfg, tr[j].main)
    ensures tr[j].size == if Shrunk(cfg, tr[j].main) && !Shrunk(cfg, tr[i].main) then 1 else tr[i].size
    ensures |tr[j].slots| == |tr[i].slots| && (|tr[i].slots| > 0 ==> tr[j].slots[1..] == tr[i].slots[1..])
  {
    hide Run, Inv, ValidConfig, Next, Complete, Shrunk;
    if i < j {
      SizeSettles(cfg, tr, failCount, serverNum, i, j - 1);
      RunInv(cfg, tr, failCount, serverNum, j - 1);
      RunNext(cfg, tr, failCount, serverNum, j - 1);
      CompleteStep(cfg, tr[j - 1], tr[j], failCount, serverNum);
    }
  }

  /** Bounds the steps a worker has left. */
  function Distance(cfg: Config, w: nat, p: Worker): nat
    requires ValidConfig(cfg) && w < WORKERS && WellPlaced(cfg, w, p)
  {
    var n := |cfg.replies[w]|;
    match p
    case Idle => 50 * n + 59
    case Asking => 50 * n + 58
    case Waiting => 50 * n + 57
    case Scanning(i) => 50 * (n - i) + 56
    case Indexing(i, q) => 50 * (n - i) + 2 * (ADDRESS_SIZE - q) + 13
    case Writing(i, q, _) => 50 * (n - i) + 2 * (ADDRESS_SIZE - q) + 12
    case Bumping(i) => 50 * (n - i) + 12
    case Storing(i, _) => 50 * (n - i) + 11
    case Testing => 6
    case Releasing => 5
    case Failed => 4
    case Counting => 3
    case CountRead(_) => 2
    case CountDone => 1
    case _ => 0
  }

  /** A step of a mutex holder with an address left brings it closer to writing size. */
  lemma CloserStep(cfg: Config, s: State, s': State, w: nat)
    requires ValidConfig(cfg) && w < WORKERS == |s.workers| && WorkerStep(cfg, s, s', w) && Holding(s.workers[w])
    requires WellPlaced(cfg, w, s.workers[w]) && Appended(cfg, w, s.workers[w]) < |Found(cfg, w)|
    ensures |s'.workers| == WORKERS && s'.mutex == s.mutex && s'.main == s.main
    ensures Appended(cfg, w, s'.workers[w]) == Appended(cfg, w, s.workers[w]) + One(s.workers[w].Storing?)
    ensures s.workers[w].Storing? ==> s'.size == s.workers[w].seen + 1
    ensures WellPlaced(cfg, w, s'.workers[w])
    ensures !s.workers[w].Storing? ==> Distance(cfg, w, s'.workers[w]) < Distance(cfg, w, s.workers[w])
  {
    var p := s.workers[w];
    UptoEnds(cfg, w);
    if p.Storing? || (p.Scanning? && p.i < |cfg.replies[w]|) {
      UptoStep(cfg, w, p.i);
    }
    hide ValidConfig, Addresses, Found, Upto, Table;
  }

  /** Worker `w` holds the mutex and has an address left. */
  predicate Appending(cfg: Config, w: nat, s: State)
    requires ValidConfig(cfg) && w < WORKERS
  {
    |s.workers| == WORKERS && s.mutex == Some(w) && Appended(cfg, w, s.workers[w]) < |Found(cfg, w)|
  }

  /** In `s'` it has counted one address more than in `s`. */
  predicate OneMore(cfg: Config, w: nat, s: State, s': State)
    requires ValidConfig(cfg) && w < WORKERS
  {
    && |s.workers| == WORKERS == |s'.workers| && s'.mutex == s.mutex == Some(w) && s'.main == s.main
    && Appended(cfg, w, s'.workers[w]) == Appended(cfg, w, s.workers[w]) + 1
    && (Shrunk(cfg, s.main) ==> s'.size >= 2)
  }

  function StepsLeft(cfg: Config, w: nat, s: State): nat
    requires ValidConfig(cfg) && w < WORKERS
  {
    if |s.workers| == WORKERS && WellPlaced(cfg, w, s.workers[w]) then Distance(cfg, w, s.workers[w]) else 0
  }

  /** Such a worker can step; the step counts the address or comes closer to it. */
  lemma HolderAdvances(cfg: Config, s: State, failCount: int, serverNum: int, w: nat) returns (s': State)
    requires ValidConfig(cfg) && Inv(cfg, s, failCount, serverNum) && w < WORKERS && Appending(cfg, w, s)
    ensures |s.workers| == WORKERS && Next(cfg, s, s')
    ensures OneMore(cfg, w, s, s')
            || (&& Appending(cfg, w, s') && StepsLeft(cfg, w, s') < StepsLeft(cfg, w, s)
                && forall t :: OneMore(cfg, w, s', t) ==> OneMore(cfg, w, s, t))
  {
    var p := s.workers[w];
    assert Holding(p) && !Parked(s, p) && !p.Idle? && WellPlaced(cfg, w, p);
    assert p.Storing? && Shrunk(cfg, s.main) ==> p.seen >= 1;
    hide Inv, WorkerStep, MainStep, ValidConfig, Appended, Found, Distance, WellPlaced;
    s' := CanMove(cfg, s, w, failCount, serverNum);
    CloserStep(cfg, s, s', w);
  }

  lemma PathExtends(cfg: Config, s: State, path: seq<State>)
    requires ValidConfig(cfg) && Path(cfg, path) && |s.workers| == WORKERS && Next(cfg, s, path[0])
    ensures Path(cfg, [s] + path)
  {
    hide Next, ValidConfig;
  }

  lemma RunFollows(cfg: Config, tr: seq<State>, failCount: int, serverNum: int, path: seq<State>)
    requires ValidConfig(cfg) && Run(cfg, tr, failCount, serverNum) && Path(cfg, path) && path[0] == tr[|tr| - 1]
    ensures Run(cfg, tr + path[1..], failCount, serverNum)
    ensures (tr + path[1..])[|tr + path[1..]| - 1] == path[|path| - 1]
  {
    hide Next, ValidConfig, Init;
  }

  /** The mutex holder counts one more address, with nobody else moving. */
  lemma {:induction false} NextAddress(cfg: Config, s: State, failCount: int, serverNum: int, w: nat) returns (path: seq<State>)
    requires ValidConfig(cfg) && Inv(cfg, s, failCount, serverNum) && w < WORKERS && Appending(cfg, w, s)
    ensures Path(cfg, path) && path[0] == s && OneMore(cfg, w, s, path[|path| - 1])
    decreases StepsLeft(cfg, w, s)
  {
    var s' := HolderAdvances(cfg, s, failCount, serverNum, w);
    hide Inv, ValidConfig, Next, Appending, OneMore, StepsLeft;
    NextKeepsInv(cfg, s, s', failCount, serverNum);
    if OneMore(cfg, w, s, s') {
      path := [s'];
    } else {
      path := NextAddress(cfg, s', failCount, serverNum, w);
    }
    PathExtends(cfg, s, path);
    path := [s] + path;
  }

  /** A run goes on until the mutex holder has counted one more address. */
  lemma RunToAddress(cfg: Config, tr: seq<State>, failCount: int, serverNum: int, w: nat) returns (more: seq<State>)
    requires ValidConfig(cfg) && Run(cfg, tr, failCount, serverNum) && w < WORKERS && Appending(cfg, w, tr[|tr| - 1])
    ensures Run(cfg, more, failCount, serverNum) && tr <= more && OneMore(cfg, w, tr[|tr| - 1], more[|more| - 1])
  {
    RunInv(cfg, tr, failCount, serverNum, |tr| - 1);
    var path := NextAddress(cfg, tr[|tr| - 1], failCount, serverNum, w);
    RunFollows(cfg, tr, failCount, serverNum, path);
    more := tr + path[1..];
  }

  /**
   After main's store of 1 the size stays 1 in every continuation exactly when the winner has already
   appended all its addresses.
   */
  lemma SizeStaysOne(cfg: Config, tr: seq<State>, failCount: int, serverNum: int)
    requires ValidConfig(cfg) && Run(cfg, tr, failCount, serverNum)
    requires Shrunk(cfg, tr[|tr| - 1].main) && tr[|tr| - 1].size == 1
    ensures var s := tr[|tr| - 1];
            && s.mutex.Some? && s.mutex.value < WORKERS == |s.workers|
            && ((forall more: seq<State>, j :: Run(cfg, more, failCount, serverNum) && tr <= more && |tr| <= j < |more| ==> more[j].size == 1)
                <==> Complete(cfg, s.mutex.value, s.workers[s.mutex.value]))
  {
    var s := tr[|tr| - 1];
    RunInv(cfg, tr, failCount, serverNum, |tr| - 1);
    PositiveHasWinner(cfg, s, failCount, serverNum);
    AppendedBound(cfg, s, failCount, serverNum);
    var w := s.mutex.value;
    if Complete(cfg, w, s.workers[w]) {
      forall more: seq<State>, j | Run(cfg, more, failCount, serverNum) && tr <= more && |tr| <= j < |more|
        ensures more[j].size == 1
      {
        SizeSettles(cfg, more, failCount, serverNum, |tr| - 1, j);
      }
    } else {
      var more := RunToAddress(cfg, tr, failCount, serverNum, w);
      assert more[|more| - 1].size != 1;
    }
  }

  /** A run in which no worker is refused and worker `w` gets the mutex first. */
  lemma FirstHolder(cfg: Config, failCount: int, serverNum: int, w: nat) returns (tr: seq<State>)
    requires ValidConfig(cfg) && w < WORKERS
    ensures Run(cfg, tr, failCount, serverNum)
    ensures var s := tr[|tr| - 1];
            |s.workers| == WORKERS && s.mutex == Some(w) && s.main == PollSize && s.workers[w] == Scanning(0)
  {
    tr := CreationRun(cfg, failCount, serverNum, 0);
    var a := Go(tr[3], w, Waiting);
    var b := Go(a, w, Scanning(0)).(mutex := Some(w));
    assert WorkerStep(cfg, tr[3], a, w) && WorkerStep(cfg, a, b, w);
    RunExtends(cfg, tr, failCount, serverNum, a);
    RunExtends(cfg, tr + [a], failCount, serverNum, b);
    tr := tr + [a] + [b];
  }

  /** Main sees a positive size and stores 1. */
  lemma MainCuts(cfg: Config, tr: seq<State>, failCount: int, serverNum: int) returns (tr': seq<State>)
    requires ValidConfig(cfg) && Run(cfg, tr, failCount, serverNum) && cfg.literal.Some?
    requires var s := tr[|tr| - 1]; |s.workers| == WORKERS && s.main == PollSize && s.size > 0
    ensures Run(cfg, tr', failCount, serverNum)
    ensures tr'[|tr'| - 1] == tr[|tr| - 1].(main := CountingZeros(0), size := 1)
  {
    var s := tr[|tr| - 1];
    var a, b := s.(main := Shrinking), s.(main := CountingZeros(0), size := 1);
    assert MainStep(cfg, s, a) && MainStep(cfg, a, b);
    RunExtends(cfg, tr, failCount, serverNum, a);
    RunExtends(cfg, tr + [a], failCount, serverNum, b);
    tr' := tr + [a] + [b];
  }

  /** A literal yields exactly one address in every run exactly when no reply carries a second one. */
  lemma LiteralYieldsOne(cfg: Config, failCount: int, serverNum: int)
    requires ValidConfig(cfg) && cfg.literal.Some?
    ensures (forall tr: seq<State>, i :: Run(cfg, tr, failCount, serverNum) && 0 <= i < |tr| && Shrunk(cfg, tr[i].main) ==> tr[i].size == 1)
            <==> forall w: nat :: w < WORKERS ==> |Found(cfg, w)| <= 1
  {
    if w: nat :| w < WORKERS && |Found(cfg, w)| >= 2 {
      UptoEnds(cfg, w);
      var tr := FirstHolder(cfg, failCount, serverNum, w);
      tr := RunToAddress(cfg, tr, failCount, serverNum, w);
      RunInv(cfg, tr, failCount, serverNum, |tr| - 1);
      assert tr[|tr| - 1].size == 1;
      tr := MainCuts(cfg, tr, failCount, serverNum);
      tr := RunToAddress(cfg, tr, failCount, serverNum, w);
      assert Shrunk(cfg, tr[|tr| - 1].main) && tr[|tr| - 1].size != 1;
    } else {
      forall tr: seq<State>, i | Run(cfg, tr, failCount, serverNum) && 0 <= i < |tr| && Shrunk(cfg, tr[i].main)
        ensures tr[i].size == 1
      {
        RunInv(cfg, tr, failCount, serverNum, i);
        AppendedBound(cfg, tr[i], failCount, serverNum);
      }
    }
  }
}

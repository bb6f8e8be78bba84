/**
 * The worker pool of ReadSectorData (internal/read.go) as a state machine: every interleaving of
 * the workers' cache lookup, decode, cache store and slot write.
 */
module Schedule {
  import opened Bytes
  import opened ChunkLru

  /**
   * A batch of chunk jobs.  decoded[s][i] is what decoding chunk i of section s gives without any
   * cache; the length a chunk must decode to is a function of that key, so nothing else matters.
   */
  datatype Batch = Batch(keys: seq<Key>, decoded: seq<seq<Option<bytes>>>, cached: bool, cap: nat) {
    function Outcome(k: Key): Option<bytes> { Truth(decoded, k) }
  }

  function Truth(decoded: seq<seq<Option<bytes>>>, k: Key): Option<bytes> {
    if 0 <= k.si < |decoded| && 0 <= k.ci < |decoded[k.si]| then decoded[k.si][k.ci] else None
  }

  /** Where a worker stands: between its receive from the channel and its write of the job's slot. */
  datatype Phase =
    | Idle
    | Lookup(i: nat)
    | Decode(i: nat)
    | Store(i: nat, data: bytes)
    | Write(i: nat, outcome: Option<bytes>)
    | Exited

  /** next counts the jobs handed out; slots holds the outcomes written so far. */
  datatype State = State(next: nat, workers: seq<Phase>, cache: seq<Entry>, slots: seq<Option<Option<bytes>>>)

  ghost predicate CacheCorrect(decoded: seq<seq<Option<bytes>>>, es: seq<Entry>) {
    Distinct(es) && forall e :: e in es ==> Truth(decoded, e.key) == Some(e.data)
  }

  ghost predicate Init(b: Batch, s: State) {
    && s.next == 0
    && |s.workers| > 0 && (forall w :: 0 <= w < |s.workers| ==> s.workers[w] == Idle)
    && CacheCorrect(b.decoded, s.cache)
    && |s.slots| == |b.keys| && (forall i :: 0 <= i < |s.slots| ==> s.slots[i] == None)
  }

  /** What worker w does next; each case is one critical section or one private action. */
  function WorkerStep(b: Batch, s: State, w: nat): State
    requires w < |s.workers| && s.next <= |b.keys| == |s.slots|
    requires s.workers[w].Lookup? || s.workers[w].Decode? || s.workers[w].Store? || s.workers[w].Write? ==>
             s.workers[w].i < |b.keys|
  {
    match s.workers[w]
    case Idle =>
      if s.next < |b.keys| then s.(next := s.next + 1, workers := s.workers[w := Lookup(s.next)])
      else s.(workers := s.workers[w := Exited])
    case Lookup(i) =>
      (match if b.cached then Find(s.cache, b.keys[i]) else None
       case Some(d) => s.(cache := Touch(s.cache, b.keys[i]), workers := s.workers[w := Write(i, Some(d))])
       case None => s.(workers := s.workers[w := Decode(i)]))
    case Decode(i) =>
      (match b.Outcome(b.keys[i])
       case Some(d) => s.(workers := s.workers[w := Store(i, d)])
       case None => s.(workers := s.workers[w := Write(i, None)]))
    case Store(i, d) =>
      s.(cache := if b.cached then PutSpec(s.cache, b.cap, b.keys[i], d) else s.cache,
         workers := s.workers[w := Write(i, Some(d))])
    case Write(i, r) =>
      s.(slots := s.slots[i := Some(r)], workers := s.workers[w := Idle])
    case Exited => s
  }

  function Held(p: Phase): Option<nat> {
    match p
    case Idle => None
    case Exited => None
    case Lookup(i) => Some(i)
    case Decode(i) => Some(i)
    case Store(i, _) => Some(i)
    case Write(i, _) => Some(i)
  }

  ghost predicate PhaseCorrect(b: Batch, p: Phase)
    requires Held(p).Some? ==> Held(p).value < |b.keys|
  {
    match p
    case Store(i, d) => b.Outcome(b.keys[i]) == Some(d)
    case Write(i, r) => b.Outcome(b.keys[i]) == r
    case _ => true
  }

  /**
   * What every schedule keeps: the cache holds only true chunks, every job handed out is held by
   * exactly one worker or written with its true outcome, and no two workers hold the same job.
   */
  ghost predicate Inv(b: Batch, s: State) {
    && s.next <= |b.keys| == |s.slots| && |s.workers| > 0
    && CacheCorrect(b.decoded, s.cache)
    && (forall w :: 0 <= w < |s.workers| && Held(s.workers[w]).Some? ==>
          Held(s.workers[w]).value < s.next && s.slots[Held(s.workers[w]).value] == None)
    && (forall w :: 0 <= w < |s.workers| && Held(s.workers[w]).Some? ==> PhaseCorrect(b, s.workers[w]))
    && (forall v, w :: 0 <= v < w < |s.workers| && Held(s.workers[v]).Some? ==>
          Held(s.workers[v]) != Held(s.workers[w]))
    && (forall i :: 0 <= i < |s.slots| && s.slots[i].Some? ==> s.slots[i] == Some(b.Outcome(b.keys[i])))
    && (forall i :: 0 <= i < s.next && s.slots[i].None? ==> HasHolder(s, i))
    && (forall i :: s.next <= i < |s.slots| ==> s.slots[i] == None)
    && (forall w :: 0 <= w < |s.workers| && s.workers[w].Exited? ==> s.next == |b.keys|)
  }

  ghost predicate HasHolder(s: State, i: nat) {
    exists w :: 0 <= w < |s.workers| && Held(s.workers[w]) == Some(i)
  }

  /** A step of the pool, or of anyone else sharing the cache: another request may leave any correct cache. */
  ghost predicate Step(b: Batch, s: State, t: State) {
    || (exists w :: 0 <= w < |s.workers| && Active(s, w) && StepOf(b, s, t, w))
    || (t == s.(cache := t.cache) && CacheCorrect(b.decoded, t.cache))
  }

  ghost predicate Active(s: State, w: nat) { w < |s.workers| && !s.workers[w].Exited? }

  ghost predicate StepOf(b: Batch, s: State, t: State, w: nat)
    requires w < |s.workers|
  {
    s.next <= |b.keys| == |s.slots| && (Held(s.workers[w]).Some? ==> Held(s.workers[w]).value < |b.keys|) &&
    t == WorkerStep(b, s, w)
  }

  lemma InitInv(b: Batch, s: State)
    requires Init(b, s)
    ensures Inv(b, s)
  {
  }

  lemma CacheKeeps(decoded: seq<seq<Option<bytes>>>, es: seq<Entry>, cap: nat, k: Key, d: bytes)
    requires CacheCorrect(decoded, es)
    ensures CacheCorrect(decoded, Touch(es, k))
    ensures Truth(decoded, k) == Some(d) ==> CacheCorrect(decoded, PutSpec(es, cap, k, d))
  {
    TouchKeeps(es, k, k);
    PutKeeps(es, cap, k, d);
    if Find(es, k).Some? {
      forall e | e in Touch(es, k) ensures Truth(decoded, e.key) == Some(e.data) {
        assert e == Entry(k, Find(es, k).value) || e in Without(es, k);
      }
    }
  }

  /** A worker that moves on with the same job keeps the invariant. */
  lemma SameJob(b: Batch, s: State, t: State, w: nat, p: Phase)
    requires Inv(b, s) && Active(s, w) && Held(s.workers[w]).Some?
    requires Held(p) == Held(s.workers[w]) && PhaseCorrect(b, p)
    requires t == s.(cache := t.cache, workers := s.workers[w := p]) && CacheCorrect(b.decoded, t.cache)
    ensures Inv(b, t)
  {
    forall i | 0 <= i < t.next && t.slots[i].None? ensures HasHolder(t, i) {
      assert HasHolder(s, i);
      var v :| 0 <= v < |s.workers| && Held(s.workers[v]) == Some(i);
      assert Held(t.workers[v]) == Some(i);
    }
  }

  lemma ReceiveKeeps(b: Batch, s: State, w: nat)
    requires Inv(b, s) && Active(s, w) && s.workers[w].Idle?
    ensures Inv(b, WorkerStep(b, s, w))
  {
    var t := WorkerStep(b, s, w);
    forall i | 0 <= i < t.next && t.slots[i].None? ensures HasHolder(t, i) {
      if i == s.next {
        assert Held(t.workers[w]) == Some(i);
      } else {
        assert HasHolder(s, i);
        var v :| 0 <= v < |s.workers| && Held(s.workers[v]) == Some(i);
        assert Held(t.workers[v]) == Some(i);
      }
    }
  }

  lemma WriteKeeps(b: Batch, s: State, w: nat)
    requires Inv(b, s) && Active(s, w) && s.workers[w].Write?
    ensures Inv(b, WorkerStep(b, s, w))
  {
    var t := WorkerStep(b, s, w);
    forall i | 0 <= i < t.next && t.slots[i].None? ensures HasHolder(t, i) {
      assert HasHolder(s, i);
      var v :| 0 <= v < |s.workers| && Held(s.workers[v]) == Some(i);
      assert v != w;
      assert Held(t.workers[v]) == Some(i);
    }
  }

  lemma WorkerKeeps(b: Batch, s: State, w: nat)
    requires Inv(b, s) && Active(s, w)
    ensures Inv(b, WorkerStep(b, s, w))
  {
    var t := WorkerStep(b, s, w);
    match s.workers[w] {
      case Idle => ReceiveKeeps(b, s, w);
      case Lookup(i) =>
        CacheKeeps(b.decoded, s.cache, b.cap, b.keys[i], []);
        SameJob(b, s, t, w, t.workers[w]);
      case Decode(i) => SameJob(b, s, t, w, t.workers[w]);
      case Store(i, d) =>
        CacheKeeps(b.decoded, s.cache, b.cap, b.keys[i], d);
        SameJob(b, s, t, w, t.workers[w]);
      case Write(i, r) => WriteKeeps(b, s, w);
    }
  }

  lemma StepKeeps(b: Batch, s: State, t: State)
    requires Inv(b, s) && Step(b, s, t)
    ensures Inv(b, t)
  {
    if w :| 0 <= w < |s.workers| && Active(s, w) && StepOf(b, s, t, w) {
      WorkerKeeps(b, s, w);
    } else {
      forall i | 0 <= i < t.next && t.slots[i].None? ensures HasHolder(t, i) {
        assert HasHolder(s, i);
        var v :| 0 <= v < |s.workers| && Held(s.workers[v]) == Some(i);
        assert Held(t.workers[v]) == Some(i);
      }
    }
  }

  // ------------------------------------------------------------ whole runs

  ghost predicate Run(b: Batch, trace: seq<State>) {
    && trace != [] && Init(b, trace[0])
    && forall i :: 0 <= i < |trace| - 1 ==> Step(b, trace[i], trace[i + 1])
  }

  ghost predicate Finished(s: State) {
    forall w :: 0 <= w < |s.workers| ==> s.workers[w].Exited?
  }

  lemma {:induction false} RunInv(b: Batch, trace: seq<State>, n: nat)
    requires Run(b, trace) && n < |trace|
    ensures Inv(b, trace[n])
  {
    if n == 0 {
      InitInv(b, trace[0]);
    } else {
      RunInv(b, trace, n - 1);
      assert Step(b, trace[n - 1], trace[n - 1 + 1]);
      StepKeeps(b, trace[n - 1], trace[n]);
    }
  }

  /** The outcomes of a sequential run with no cache. */
  function Sequential(b: Batch): (r: seq<Option<bytes>>)
    ensures |r| == |b.keys|
  {
    seq(|b.keys|, i requires 0 <= i < |b.keys| => b.Outcome(b.keys[i]))
  }

  /**
   * Schedule independence: however the workers, and other users of the cache, interleave, and
   * whatever correct entries the cache starts with, a finished pool has written into every slot
   * exactly what a sequential run without a cache computes; and the cache is still correct.
   */
  lemma ScheduleIndependence(b: Batch, trace: seq<State>)
    requires Run(b, trace) && Finished(trace[|trace| - 1])
    ensures var s := trace[|trace| - 1];
            && |s.slots| == |b.keys|
            && (forall i :: 0 <= i < |b.keys| ==> s.slots[i] == Some(Sequential(b)[i]))
            && CacheCorrect(b.decoded, s.cache)
  {
    RunInv(b, trace, |trace| - 1);
    FinishedSlots(b, trace[|trace| - 1]);
  }

  lemma FinishedSlots(b: Batch, s: State)
    requires Inv(b, s) && Finished(s)
    ensures forall i :: 0 <= i < |b.keys| ==> s.slots[i] == Some(Sequential(b)[i])
  {
    assert s.workers[0].Exited?;
    NothingHeld(s);
  }

  /** When all workers are gone no job is held. */
  lemma NothingHeld(s: State)
    requires Finished(s)
    ensures forall i: nat :: !HasHolder(s, i)
  {
  }

  // ------------------------------------------------------------ every schedule ends

  function Rank(p: Phase): nat {
    match p
    case Exited => 0
    case Idle => 1
    case Write(_, _) => 2
    case Store(_, _) => 3
    case Decode(_) => 4
    case Lookup(_) => 5
  }

  function Ranks(ps: seq<Phase>): nat {
    if ps == [] then 0 else Rank(ps[0]) + Ranks(ps[1..])
  }

  /** The work left: jobs not handed out, and how far each worker is from its exit. */
  function Work(b: Batch, s: State): nat
    requires s.next <= |b.keys|
  {
    5 * (|b.keys| - s.next) + Ranks(s.workers)
  }

  lemma {:induction false} RanksUpdate(ps: seq<Phase>, w: nat, p: Phase)
    requires w < |ps|
    ensures Ranks(ps[w := p]) == Ranks(ps) - Rank(ps[w]) + Rank(p)
  {
    if w > 0 {
      assert ps[w := p][1..] == ps[1..][w - 1 := p];
      RanksUpdate(ps[1..], w - 1, p);
    } else {
      assert ps[w := p][1..] == ps[1..];
    }
  }

  /** Every move of a worker uses up work. */
  lemma MoveUsesWork(b: Batch, s: State, w: nat)
    requires Inv(b, s) && Active(s, w)
    ensures var t := WorkerStep(b, s, w);
            t.next <= |b.keys| && Work(b, t) < Work(b, s) && t.workers != s.workers
  {
    var t := WorkerStep(b, s, w);
    RanksUpdate(s.workers, w, t.workers[w]);
    assert t.workers[w] != s.workers[w];
  }

  /** No deadlock: in every reachable state that is not finished some worker can move. */
  lemma SomeWorkerCanMove(b: Batch, s: State)
    requires Inv(b, s) && !Finished(s)
    ensures exists w :: 0 <= w < |s.workers| && Active(s, w) && StepOf(b, s, WorkerStep(b, s, w), w)
  {
    var w :| 0 <= w < |s.workers| && !s.workers[w].Exited?;
    assert Active(s, w) && StepOf(b, s, WorkerStep(b, s, w), w);
  }

  /** How many steps of a run were moves of the pool. */
  function Moves(trace: seq<State>): nat {
    if |trace| < 2 then 0
    else Moves(trace[..|trace| - 1]) + if trace[|trace| - 2].workers != trace[|trace| - 1].workers then 1 else 0
  }

  /** No livelock: no run contains more pool moves than five per job plus one per worker. */
  lemma {:induction false} MovesBounded(b: Batch, trace: seq<State>)
    requires Run(b, trace)
    ensures var s := trace[|trace| - 1];
            s.next <= |b.keys| && Moves(trace) + Work(b, s) <= Work(b, trace[0]) == 5 * |b.keys| + |trace[0].workers|
    decreases |trace|
  {
    InitRanks(trace[0].workers);
    if |trace| > 1 {
      var front := trace[..|trace| - 1];
      MovesBounded(b, front);
      var s, t := trace[|trace| - 2], trace[|trace| - 1];
      RunInv(b, trace, |trace| - 2);
      assert Step(b, trace[|trace| - 2], trace[|trace| - 2 + 1]);
      if w :| 0 <= w < |s.workers| && Active(s, w) && StepOf(b, s, t, w) {
        MoveUsesWork(b, s, w);
      }
    }
  }

  lemma {:induction false} InitRanks(ps: seq<Phase>)
    requires forall w :: 0 <= w < |ps| ==> ps[w] == Idle
    ensures Ranks(ps) == |ps|
  {
    if ps != [] { InitRanks(ps[1..]); }
  }
}

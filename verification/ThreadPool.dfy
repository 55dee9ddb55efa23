/**
 The thread pool of misc/mgx_thread_pool.cpp: a queue guarded by a mutex, a size counter
 that the workers read outside the mutex, and a semaphore.

 Every statement that touches shared state is one atomic step, and a run is any
 interleaving of the steps of any number of workers and producers.  Shutdown is not
 part of the model.
 */
module ThreadPool {

  type Buffer = nat   // the address of a message buffer

  /** Where a worker stands in th_func. */
  datatype Worker =
    | Waiting                // at sem_wait
    | GotToken               // sem_wait returned, with a token or interrupted; size not yet read
    | WantLock               // saw a positive size
    | Locked                 // owns the mutex
    | Popped(buf: Buffer)    // popped, size not yet decremented
    | Counted(buf: Buffer)   // decremented, mutex still owned
    | Handling(buf: Buffer)  // mutex released, message being processed

  /** Where a caller stands in insert_msg_to_queue_and_signal. */
  datatype Producer =
    | Idle
    | Entered(buf: Buffer)
    | Holding(buf: Buffer)   // owns the mutex
    | Pushed                 // pushed, size not yet incremented
    | Sized                  // incremented, mutex still owned
    | MustPost               // mutex released, sem_post still to come

  datatype Owner = Free | ByWorker(w: nat) | ByProducer(p: nat)

  /** The shared variables, the threads, and what has happened so far: buffers pushed,
      taken and finished, each in order. */
  datatype State = State(queue: seq<Buffer>, size: int, sem: nat, lock: Owner,
                         workers: seq<Worker>, producers: seq<Producer>,
                         pushed: seq<Buffer>, taken: seq<Buffer>, finished: seq<Buffer>)

  /** Interrupted: sem_wait returns because of a signal, without a token.  Its result is not
      looked at, and the signal handlers are installed without SA_RESTART. */
  datatype Action =
    | SemWait(w: nat) | Interrupted(w: nat) | ReadSize(w: nat) | WLock(w: nat) | Pop(w: nat) | Decrement(w: nat)
    | WUnlock(w: nat) | Finish(w: nat)
    | Call(p: nat, buf: Buffer) | PLock(p: nat) | Push(p: nat) | Increment(p: nat)
    | PUnlock(p: nat) | Post(p: nat)

  predicate Enabled(s: State, a: Action) {
    match a
    case SemWait(w) => w < |s.workers| && s.workers[w].Waiting? && s.sem > 0
    case Interrupted(w) => w < |s.workers| && s.workers[w].Waiting?
    case ReadSize(w) => w < |s.workers| && s.workers[w].GotToken?
    case WLock(w) => w < |s.workers| && s.workers[w].WantLock? && s.lock.Free?
    case Pop(w) => w < |s.workers| && s.workers[w].Locked?
    case Decrement(w) => w < |s.workers| && s.workers[w].Popped?
    case WUnlock(w) => w < |s.workers| && s.workers[w].Counted?
    case Finish(w) => w < |s.workers| && s.workers[w].Handling?
    case Call(p, _) => p < |s.producers| && s.producers[p].Idle?
    case PLock(p) => p < |s.producers| && s.producers[p].Entered? && s.lock.Free?
    case Push(p) => p < |s.producers| && s.producers[p].Holding?
    case Increment(p) => p < |s.producers| && s.producers[p].Pushed?
    case PUnlock(p) => p < |s.producers| && s.producers[p].Sized?
    case Post(p) => p < |s.producers| && s.producers[p].MustPost?
  }

  /** front() and pop() on an empty std::queue are undefined; everything else is total. */
  predicate Safe(s: State, a: Action) {
    a.Pop? ==> s.queue != []
  }

  function Apply(s: State, a: Action): (t: State)
    requires Enabled(s, a) && Safe(s, a)
  {
    match a
    case SemWait(w) => s.(sem := s.sem - 1, workers := s.workers[w := GotToken])
    case Interrupted(w) => s.(workers := s.workers[w := GotToken])
    case ReadSize(w) => s.(workers := s.workers[w := if s.size > 0 then WantLock else Waiting])
    case WLock(w) => s.(lock := ByWorker(w), workers := s.workers[w := Locked])
    case Pop(w) =>
      s.(queue := s.queue[1..], taken := s.taken + [s.queue[0]], workers := s.workers[w := Popped(s.queue[0])])
    case Decrement(w) => s.(size := s.size - 1, workers := s.workers[w := Counted(s.workers[w].buf)])
    case WUnlock(w) => s.(lock := Free, workers := s.workers[w := Handling(s.workers[w].buf)])
    case Finish(w) => s.(finished := s.finished + [s.workers[w].buf], workers := s.workers[w := Waiting])
    case Call(p, b) => s.(producers := s.producers[p := Entered(b)])
    case PLock(p) => s.(lock := ByProducer(p), producers := s.producers[p := Holding(s.producers[p].buf)])
    case Push(p) =>
      var b := s.producers[p].buf;
      s.(queue := s.queue + [b], pushed := s.pushed + [b], producers := s.producers[p := Pushed])
    case Increment(p) => s.(size := s.size + 1, producers := s.producers[p := Sized])
    case PUnlock(p) => s.(lock := Free, producers := s.producers[p := MustPost])
    case Post(p) => s.(sem := s.sem + 1, producers := s.producers[p := Idle])
  }

  /** sem_init(0), empty queue, all workers at sem_wait. */
  predicate Initial(s: State) {
    && s.queue == s.pushed == s.taken == s.finished == []
    && s.size == 0 && s.sem == 0 && s.lock == Free
    && (forall w :: 0 <= w < |s.workers| ==> s.workers[w].Waiting?)
    && (forall p :: 0 <= p < |s.producers| ==> s.producers[p].Idle?)
  }

  // ---------------------------------------------------------------- counting threads

  function Sum<T>(xs: seq<T>, f: T -> nat): (n: nat) {
    if xs == [] then 0 else f(xs[0]) + Sum(xs[1..], f)
  }

  lemma {:induction false} SumUpdate<T>(xs: seq<T>, i: nat, x: T, f: T -> nat)
    requires i < |xs|
    ensures Sum(xs[i := x], f) == Sum(xs, f) - f(xs[i]) + f(x)
  {
    if i == 0 {
      assert xs[0 := x][1..] == xs[1..];
    } else {
      SumUpdate(xs[1..], i - 1, x, f);
      assert xs[i := x][1..] == xs[1..][i - 1 := x];
    }
  }

  lemma {:induction false} SumBound<T>(xs: seq<T>, i: nat, f: T -> nat)
    requires i < |xs|
    ensures Sum(xs, f) >= f(xs[i])
  {
    if i > 0 {
      SumBound(xs[1..], i - 1, f);
    }
  }

  lemma {:induction false} SumZero<T>(xs: seq<T>, f: T -> nat)
    requires forall i :: 0 <= i < |xs| ==> f(xs[i]) == 0
    ensures Sum(xs, f) == 0
  {
    if xs != [] {
      SumZero(xs[1..], f);
    }
  }

  /** A worker that has left sem_wait and has not yet popped. */
  function HoldsToken(w: Worker): (n: nat) { if w.GotToken? || w.WantLock? || w.Locked? then 1 else 0 }

  /** A producer that pushed and has not yet posted. */
  function OwesToken(p: Producer): (n: nat) { if p.Pushed? || p.Sized? || p.MustPost? then 1 else 0 }

  function Carries(w: Worker, b: Buffer): (n: nat) {
    if (w.Popped? || w.Counted? || w.Handling?) && w.buf == b then 1 else 0
  }

  /** The number of workers that have b in hand. */
  function Holders(ws: seq<Worker>, b: Buffer): (n: nat) {
    if ws == [] then 0 else Carries(ws[0], b) + Holders(ws[1..], b)
  }

  lemma {:induction false} HoldersUpdate(ws: seq<Worker>, i: nat, w: Worker, b: Buffer)
    requires i < |ws|
    ensures Holders(ws[i := w], b) == Holders(ws, b) - Carries(ws[i], b) + Carries(w, b)
  {
    if i == 0 {
      assert ws[0 := w][1..] == ws[1..];
    } else {
      HoldersUpdate(ws[1..], i - 1, w, b);
      assert ws[i := w][1..] == ws[1..][i - 1 := w];
    }
  }

  // ---------------------------------------------------------------- the invariant

  predicate InsideLock(w: Worker) { w.Locked? || w.Popped? || w.Counted? }
  predicate InsideLockP(p: Producer) { p.Holding? || p.Pushed? || p.Sized? }

  ghost predicate Mutex(s: State) {
    && (forall w :: 0 <= w < |s.workers| ==> (InsideLock(s.workers[w]) <==> s.lock == ByWorker(w)))
    && (forall p :: 0 <= p < |s.producers| ==> (InsideLockP(s.producers[p]) <==> s.lock == ByProducer(p)))
    && (s.lock.ByWorker? ==> s.lock.w < |s.workers|)
    && (s.lock.ByProducer? ==> s.lock.p < |s.producers|)
  }

  /** Queue length = free tokens + tokens held and unspent + tokens still to be posted. */
  ghost predicate Tokens(s: State) {
    |s.queue| == s.sem + Sum(s.workers, HoldsToken) + Sum(s.producers, OwesToken)
  }

  /** The counter is the queue length, except between the two statements inside the lock. */
  ghost predicate Counter(s: State) {
    s.size == |s.queue| - (if s.lock.ByProducer? && s.lock.p < |s.producers| && s.producers[s.lock.p].Pushed? then 1 else 0)
                        + (if s.lock.ByWorker? && s.lock.w < |s.workers| && s.workers[s.lock.w].Popped? then 1 else 0)
  }

  /** First in, first out, and nothing twice: what has been taken and what is queued is
      what was pushed; what was taken is finished or with one worker. */
  ghost predicate Conserved(s: State) {
    && s.pushed == s.taken + s.queue
    && forall b :: multiset(s.taken)[b] == multiset(s.finished)[b] + Holders(s.workers, b)
  }

  /** Without interruptions. */
  ghost predicate Inv(s: State) { Mutex(s) && Tokens(s) && Counter(s) && Conserved(s) }

  /** With interruptions there may be more workers on the way than messages, not fewer. */
  ghost predicate Covered(s: State) {
    |s.queue| <= s.sem + Sum(s.workers, HoldsToken) + Sum(s.producers, OwesToken)
  }

  /** What survives interruptions. */
  ghost predicate Loose(s: State) { Mutex(s) && Covered(s) && Counter(s) && Conserved(s) }

  lemma InitialInv(s: State)
    requires Initial(s)
    ensures Inv(s)
  {
    SumZero(s.workers, HoldsToken);
    SumZero(s.producers, OwesToken);
    forall b ensures Holders(s.workers, b) == 0 {
      NobodyHolds(s.workers, b);
    }
  }

  lemma {:induction false} NobodyHolds(ws: seq<Worker>, b: Buffer)
    requires forall w :: 0 <= w < |ws| ==> ws[w].Waiting?
    ensures Holders(ws, b) == 0
  {
    if ws != [] {
      NobodyHolds(ws[1..], b);
    }
  }

  /** A worker that holds a token finds the counter positive, although it reads it
      without the mutex: no token is ever thrown away. */
  lemma TokenNeverDiscarded(s: State, w: nat)
    requires Inv(s) && w < |s.workers| && s.workers[w].GotToken?
    ensures s.size > 0
  {
    SumBound(s.workers, w, HoldsToken);
    if s.lock.ByProducer? && s.producers[s.lock.p].Pushed? {
      SumBound(s.producers, s.lock.p, OwesToken);
    }
  }

  /** A worker inside the mutex finds a message to pop. */
  lemma PopNeverEmpty(s: State, w: nat)
    requires Inv(s) && w < |s.workers| && s.workers[w].Locked?
    ensures s.queue != [] && s.size > 0
  {
    SumBound(s.workers, w, HoldsToken);
  }

  lemma Always(s: State, a: Action)
    requires Inv(s) && Enabled(s, a)
    ensures Safe(s, a)
  {
    if a.Pop? {
      PopNeverEmpty(s, a.w);
    }
  }

  predicate OfWorker(a: Action) {
    a.SemWait? || a.Interrupted? || a.ReadSize? || a.WLock? || a.Pop? || a.Decrement? || a.WUnlock? || a.Finish?
  }

  lemma WorkerMutex(s: State, a: Action)
    requires Mutex(s) && Counter(s) && Enabled(s, a) && Safe(s, a) && OfWorker(a)
    ensures Mutex(Apply(s, a)) && Counter(Apply(s, a))
  {
  }

  lemma WorkerTokens(s: State, a: Action)
    requires Inv(s) && Enabled(s, a) && Safe(s, a) && OfWorker(a) && !a.Interrupted?
    ensures Tokens(Apply(s, a))
  {
    if a.ReadSize? {
      TokenNeverDiscarded(s, a.w);
    }
    SumUpdate(s.workers, a.w, Apply(s, a).workers[a.w], HoldsToken);
  }

  /** A worker that finds nothing goes back to sem_wait only if every queued message has a
      token on the way from its producer. */
  lemma WorkerCovered(s: State, a: Action)
    requires Mutex(s) && Counter(s) && Covered(s) && Enabled(s, a) && Safe(s, a) && OfWorker(a)
    ensures Covered(Apply(s, a))
  {
    SumUpdate(s.workers, a.w, Apply(s, a).workers[a.w], HoldsToken);
    if a.ReadSize? && s.size <= 0 && s.queue != [] {
      SumBound(s.producers, s.lock.p, OwesToken);
    }
  }

  lemma WorkerConservesOne(s: State, a: Action, b: Buffer)
    requires Enabled(s, a) && Safe(s, a) && OfWorker(a)
    requires multiset(s.taken)[b] == multiset(s.finished)[b] + Holders(s.workers, b)
    ensures var t := Apply(s, a); multiset(t.taken)[b] == multiset(t.finished)[b] + Holders(t.workers, b)
  {
    var t := Apply(s, a);
    HoldersUpdate(s.workers, a.w, t.workers[a.w], b);
    if a.Pop? {
      assert multiset(t.taken) == multiset(s.taken) + multiset{s.queue[0]};
    } else if a.Finish? {
      assert multiset(t.finished) == multiset(s.finished) + multiset{s.workers[a.w].buf};
    }
  }

  lemma WorkerConserves(s: State, a: Action)
    requires Conserved(s) && Enabled(s, a) && Safe(s, a) && OfWorker(a)
    ensures Conserved(Apply(s, a))
  {
    var t := Apply(s, a);
    if a.Pop? {
      assert s.queue == [s.queue[0]] + s.queue[1..];
    }
    forall b ensures multiset(t.taken)[b] == multiset(t.finished)[b] + Holders(t.workers, b) {
      WorkerConservesOne(s, a, b);
    }
  }

  lemma ProducerMutex(s: State, a: Action)
    requires Mutex(s) && Counter(s) && Conserved(s) && Enabled(s, a) && !OfWorker(a)
    ensures Mutex(Apply(s, a)) && Counter(Apply(s, a)) && Conserved(Apply(s, a))
  {
  }

  lemma ProducerTokens(s: State, a: Action)
    requires Enabled(s, a) && !OfWorker(a)
    ensures Tokens(s) ==> Tokens(Apply(s, a))
    ensures Covered(s) ==> Covered(Apply(s, a))
  {
    SumUpdate(s.producers, a.p, Apply(s, a).producers[a.p], OwesToken);
  }

  lemma InvStep(s: State, a: Action)
    requires Inv(s) && Enabled(s, a) && !a.Interrupted?
    ensures Safe(s, a) && Inv(Apply(s, a))
  {
    Always(s, a);
    if OfWorker(a) {
      WorkerMutex(s, a);
      WorkerTokens(s, a);
      WorkerConserves(s, a);
    } else {
      ProducerMutex(s, a);
      ProducerTokens(s, a);
    }
  }

  lemma LooseStep(s: State, a: Action)
    requires Loose(s) && Enabled(s, a) && Safe(s, a)
    ensures Loose(Apply(s, a))
  {
    if OfWorker(a) {
      WorkerMutex(s, a);
      WorkerCovered(s, a);
      WorkerConserves(s, a);
    } else {
      ProducerMutex(s, a);
      ProducerTokens(s, a);
    }
  }

  // ---------------------------------------------------------------- whole runs

  /** actions is a run from s: each is enabled where it is taken. */
  ghost predicate IsRun(s: State, actions: seq<Action>)
    decreases |actions|
  {
    actions == [] ||
    (Enabled(s, actions[0]) && Safe(s, actions[0]) && IsRun(Apply(s, actions[0]), actions[1..]))
  }

  ghost function End(s: State, actions: seq<Action>): (t: State)
    requires IsRun(s, actions)
    decreases |actions|
  {
    if actions == [] then s else End(Apply(s, actions[0]), actions[1..])
  }

  predicate Uninterrupted(actions: seq<Action>) { forall i :: 0 <= i < |actions| ==> !actions[i].Interrupted? }

  /** No statement that could come next is undefined. */
  ghost predicate AllSafe(s: State) { forall a :: Enabled(s, a) ==> Safe(s, a) }

  /** Every interleaving without interruptions keeps the invariant, and the queue is never
      popped empty. */
  lemma {:induction false} InvRun(s: State, actions: seq<Action>)
    requires Inv(s) && IsRun(s, actions) && Uninterrupted(actions)
    ensures Inv(End(s, actions)) && AllSafe(End(s, actions))
    decreases |actions|
  {
    if actions == [] {
      forall a | Enabled(s, a) ensures Safe(s, a) {
        Always(s, a);
      }
    } else {
      InvStep(s, actions[0]);
      InvRun(Apply(s, actions[0]), actions[1..]);
    }
  }

  /** Every interleaving, with any number of interruptions, keeps the loose invariant as
      long as no statement is undefined. */
  lemma {:induction false} LooseRun(s: State, actions: seq<Action>)
    requires Loose(s) && IsRun(s, actions)
    ensures Loose(End(s, actions))
    decreases |actions|
  {
    if actions != [] {
      LooseStep(s, actions[0]);
      LooseRun(Apply(s, actions[0]), actions[1..]);
    }
  }

  /** From the start of the pool, in every interleaving, interrupted or not: messages are
      taken in the order they were pushed, none twice, and every message taken is finished
      or with exactly one worker. */
  lemma FifoExactlyOnce(s: State, actions: seq<Action>)
    requires Initial(s) && IsRun(s, actions)
    ensures var t := End(s, actions);
            && t.taken <= t.pushed
            && t.pushed == t.taken + t.queue
            && forall b :: multiset(t.taken)[b] == multiset(t.finished)[b] + Holders(t.workers, b)
  {
    InitialInv(s);
    LooseRun(s, actions);
  }

  // ---------------------------------------------------------------- interrupted waits

  /** The only worker: once it has seen a positive size nobody else can empty the queue. */
  ghost predicate Alone(s: State) {
    && Loose(s) && |s.workers| <= 1
    && forall w :: 0 <= w < |s.workers| && (s.workers[w].WantLock? || s.workers[w].Locked?) ==> s.queue != []
  }

  lemma AloneStep(s: State, a: Action)
    requires Alone(s) && Enabled(s, a)
    ensures Safe(s, a) && Alone(Apply(s, a))
  {
    assert Safe(s, a);
    LooseStep(s, a);
  }

  lemma {:induction false} AloneRun(s: State, actions: seq<Action>)
    requires Alone(s) && IsRun(s, actions)
    ensures AllSafe(End(s, actions))
    decreases |actions|
  {
    if actions != [] {
      AloneStep(s, actions[0]);
      AloneRun(Apply(s, actions[0]), actions[1..]);
    }
  }

  /** Without producers nothing is ever queued. */
  ghost predicate Empty(s: State) {
    && s.producers == [] && s.size == 0
    && forall w :: 0 <= w < |s.workers| ==> s.workers[w].Waiting? || s.workers[w].GotToken?
  }

  lemma {:induction false} EmptyRun(s: State, actions: seq<Action>)
    requires Empty(s) && IsRun(s, actions)
    ensures AllSafe(End(s, actions))
    decreases |actions|
  {
    if actions != [] {
      EmptyRun(Apply(s, actions[0]), actions[1..]);
    }
  }

  /** What the run below looks at. */
  ghost predicate Shows(s: State, w0: Worker, w1: Worker, p: Producer, queue: seq<Buffer>, size: int, sem: nat, lock: Owner) {
    && |s.workers| >= 2 && s.workers[0] == w0 && s.workers[1] == w1
    && |s.producers| >= 1 && s.producers[0] == p
    && s.queue == queue && s.size == size && s.sem == sem && s.lock == lock
  }

  lemma {:induction false} Extend(s: State, actions: seq<Action>, a: Action)
    requires IsRun(s, actions) && Enabled(End(s, actions), a) && Safe(End(s, actions), a)
    ensures IsRun(s, actions + [a]) && End(s, actions + [a]) == Apply(End(s, actions), a)
    decreases |actions|
  {
    if actions == [] {
      assert actions + [a] == [a] && [a][1..] == [];
    } else {
      Extend(Apply(s, actions[0]), actions[1..], a);
      assert (actions + [a])[1..] == actions[1..] + [a];
    }
  }

  /** A producer hands over message b. */
  lemma OneMessage(s: State, b: Buffer) returns (run: seq<Action>)
    requires Initial(s) && |s.workers| >= 2 && |s.producers| >= 1
    ensures IsRun(s, run) && Shows(End(s, run), Waiting, Waiting, Idle, [b], 1, 1, Free)
  {
    run := [];
    Extend(s, run, Call(0, b));
    run := run + [Call(0, b)];
    Extend(s, run, PLock(0));
    run := run + [PLock(0)];
    Extend(s, run, Push(0));
    run := run + [Push(0)];
    assert End(s, run).queue == [b];
    Extend(s, run, Increment(0));
    run := run + [Increment(0)];
    Extend(s, run, PUnlock(0));
    run := run + [PUnlock(0)];
    Extend(s, run, Post(0));
    run := run + [Post(0)];
  }

  /** Worker 0 takes the token, worker 1 is interrupted, and both see the size of 1. */
  lemma BothSeeIt(s: State, b: Buffer) returns (run: seq<Action>)
    requires Initial(s) && |s.workers| >= 2 && |s.producers| >= 1
    ensures IsRun(s, run) && Shows(End(s, run), WantLock, WantLock, Idle, [b], 1, 0, Free)
  {
    run := OneMessage(s, b);
    Extend(s, run, SemWait(0));
    run := run + [SemWait(0)];
    Extend(s, run, ReadSize(0));
    run := run + [ReadSize(0)];
    Extend(s, run, Interrupted(1));
    run := run + [Interrupted(1)];
    Extend(s, run, ReadSize(1));
    run := run + [ReadSize(1)];
  }

  /** One message, two workers and one interruption: the second worker is about to pop the
      empty queue. */
  lemma InterruptedPop(s: State, b: Buffer) returns (run: seq<Action>)
    requires Initial(s) && |s.workers| >= 2 && |s.producers| >= 1
    ensures IsRun(s, run) && Enabled(End(s, run), Pop(1)) && !Safe(End(s, run), Pop(1))
  {
    run := BothSeeIt(s, b);
    Extend(s, run, WLock(0));
    run := run + [WLock(0)];
    Extend(s, run, Pop(0));
    run := run + [Pop(0)];
    Extend(s, run, Decrement(0));
    run := run + [Decrement(0)];
    Extend(s, run, WUnlock(0));
    run := run + [WUnlock(0)];
    Extend(s, run, WLock(1));
    run := run + [WLock(1)];
  }

  /** With interruptions, no run of a fresh pool comes to an undefined statement if and only
      if there is at most one worker, or nobody who calls. */
  lemma SafeExactly(s: State)
    requires Initial(s)
    ensures (forall run | IsRun(s, run) :: AllSafe(End(s, run))) <==> |s.workers| <= 1 || |s.producers| == 0
  {
    InitialInv(s);
    if |s.workers| <= 1 || |s.producers| == 0 {
      forall run | IsRun(s, run) ensures AllSafe(End(s, run)) {
        if |s.workers| <= 1 {
          AloneRun(s, run);
        } else {
          EmptyRun(s, run);
        }
      }
    } else {
      var run := InterruptedPop(s, 0);
    }
  }

  // ---------------------------------------------------------------- progress

  function WorkerWork(w: Worker): (n: nat) {
    match w
    case Waiting => 0
    case Handling(_) => 1
    case Counted(_) => 2
    case Popped(_) => 3
    case Locked => 4
    case WantLock => 5
    case GotToken => 6
  }

  function ProducerWork(p: Producer): (n: nat) {
    match p
    case Idle => 0
    case MustPost => 8
    case Sized => 9
    case Pushed => 10
    case Holding(_) => 11
    case Entered(_) => 12
  }

  /** Work left if nobody calls again; a free token is worth one round of a worker. */
  function Work(s: State): (n: nat) {
    7 * s.sem + Sum(s.workers, WorkerWork) + Sum(s.producers, ProducerWork)
  }

  lemma StepsUseWork(s: State, a: Action)
    requires Enabled(s, a) && Safe(s, a) && !a.Call?
    ensures Work(Apply(s, a)) < Work(s) + if a.Interrupted? then 7 else 0
  {
    var t := Apply(s, a);
    if OfWorker(a) {
      SumUpdate(s.workers, a.w, t.workers[a.w], WorkerWork);
    } else {
      SumUpdate(s.producers, a.p, t.producers[a.p], ProducerWork);
    }
  }

  function Interruptions(actions: seq<Action>): (n: nat) {
    if actions == [] then 0 else (if actions[0].Interrupted? then 1 else 0) + Interruptions(actions[1..])
  }

  /** Without new calls a run can go on only by being interrupted: there is a bound on its
      length known beforehand, which every interruption raises by seven. */
  lemma {:induction false} RunsAreBounded(s: State, actions: seq<Action>)
    requires IsRun(s, actions)
    requires forall i :: 0 <= i < |actions| ==> !actions[i].Call?
    ensures |actions| + Work(End(s, actions)) <= Work(s) + 7 * Interruptions(actions)
    decreases |actions|
  {
    if actions != [] {
      StepsUseWork(s, actions[0]);
      RunsAreBounded(Apply(s, actions[0]), actions[1..]);
    }
  }

  /** Only a new call or an interruption could happen. */
  ghost predicate Quiet(s: State) {
    forall a :: Enabled(s, a) ==> a.Call? || a.Interrupted?
  }

  /** Whoever owns the mutex can go on. */
  lemma LockHolderCanMove(s: State) returns (a: Action)
    requires Mutex(s) && !s.lock.Free?
    ensures Enabled(s, a) && !a.Call? && !a.Interrupted?
  {
    if s.lock.ByWorker? {
      var w := s.lock.w;
      assert InsideLock(s.workers[w]);
      a := if s.workers[w].Locked? then Pop(w) else if s.workers[w].Popped? then Decrement(w) else WUnlock(w);
    } else {
      var p := s.lock.p;
      assert InsideLockP(s.producers[p]);
      a := if s.producers[p].Holding? then Push(p) else if s.producers[p].Pushed? then Increment(p) else PUnlock(p);
    }
  }

  lemma QuietThreads(s: State)
    requires Mutex(s) && Quiet(s)
    ensures forall w :: 0 <= w < |s.workers| ==> s.workers[w].Waiting?
    ensures forall p :: 0 <= p < |s.producers| ==> s.producers[p].Idle?
  {
    if !s.lock.Free? {
      var a := LockHolderCanMove(s);
    }
    forall w | 0 <= w < |s.workers| ensures s.workers[w].Waiting? {
      assert !Enabled(s, ReadSize(w)) && !Enabled(s, WLock(w)) && !Enabled(s, Finish(w));
    }
    forall p | 0 <= p < |s.producers| ensures s.producers[p].Idle? {
      assert !Enabled(s, PLock(p)) && !Enabled(s, Post(p));
    }
  }

  /** No message is stranded and there is no deadlock, interrupted or not: with at least one
      worker, a pool in which nothing but a new call or an interruption can happen has
      finished everything it was given. */
  lemma QuietMeansDone(s: State)
    requires Loose(s) && Quiet(s) && |s.workers| > 0
    ensures s.queue == [] && s.size == 0 && s.taken == s.pushed
    ensures multiset(s.finished) == multiset(s.pushed)
  {
    QuietThreads(s);
    SumZero(s.workers, HoldsToken);
    SumZero(s.producers, OwesToken);
    assert !Enabled(s, SemWait(0));
    assert s.pushed == s.taken;
    forall b ensures multiset(s.finished)[b] == multiset(s.pushed)[b] {
      NobodyHolds(s.workers, b);
      assert multiset(s.taken)[b] == multiset(s.finished)[b] + Holders(s.workers, b);
    }
  }

  // ---------------------------------------------------------------- the pool in place

  /** The same steps on the fields of the pool. */
  class Pool {
    var queue: seq<Buffer>
    var size: int
    var sem: nat
    var lock: Owner
    var workers: seq<Worker>
    var producers: seq<Producer>
    ghost var pushed: seq<Buffer>
    ghost var taken: seq<Buffer>
    ghost var finished: seq<Buffer>

    ghost function View(): (s: State)
      reads this
    {
      State(queue, size, sem, lock, workers, producers, pushed, taken, finished)
    }

    constructor (workerCount: nat, producerCount: nat)
      ensures Initial(View()) && Inv(View())
      ensures |workers| == workerCount && |producers| == producerCount
    {
      queue, size, sem, lock := [], 0, 0, Free;
      workers := seq(workerCount, _ => Waiting);
      producers := seq(producerCount, _ => Idle);
      pushed, taken, finished := [], [], [];
      new;
      InitialInv(View());
    }

    /** One statement of th_func or of insert_msg_to_queue_and_signal, in place. */
    method Execute(a: Action)
      requires Enabled(View(), a) && Safe(View(), a)
      modifies this
      ensures View() == Apply(old(View()), a)
    {
      match a {
        case SemWait(w) =>
          sem := sem - 1;
          workers := workers[w := GotToken];
        case Interrupted(w) =>
          workers := workers[w := GotToken];
        case ReadSize(w) =>
          workers := workers[w := if size > 0 then WantLock else Waiting];
        case WLock(w) =>
          lock := ByWorker(w);
          workers := workers[w := Locked];
        case Pop(w) =>
          var buf := queue[0];
          queue := queue[1..];
          taken := taken + [buf];
          workers := workers[w := Popped(buf)];
        case Decrement(w) =>
          size := size - 1;
          workers := workers[w := Counted(workers[w].buf)];
        case WUnlock(w) =>
          lock := Free;
          workers := workers[w := Handling(workers[w].buf)];
        case Finish(w) =>
          finished := finished + [workers[w].buf];
          workers := workers[w := Waiting];
        case Call(p, buf) =>
          producers := producers[p := Entered(buf)];
        case PLock(p) =>
          lock := ByProducer(p);
          producers := producers[p := Holding(producers[p].buf)];
        case Push(p) =>
          queue := queue + [producers[p].buf];
          pushed := pushed + [producers[p].buf];
          producers := producers[p := Pushed];
        case Increment(p) =>
          size := size + 1;
          producers := producers[p := Sized];
        case PUnlock(p) =>
          lock := Free;
          producers := producers[p := MustPost];
        case Post(p) =>
          sem := sem + 1;
          producers := producers[p := Idle];
      }
    }

    /** With the invariant, every enabled statement but an interruption is safe and keeps
        it; with the loose invariant, every safe one keeps that. */
    method Step(a: Action)
      requires Loose(View()) && Enabled(View(), a)
      requires Safe(View(), a) || (Inv(View()) && !a.Interrupted?)
      modifies this
      ensures Safe(old(View()), a) && View() == Apply(old(View()), a) && Loose(View())
      ensures old(Inv(View())) && !a.Interrupted? ==> Inv(View())
    {
      if !a.Interrupted? && Inv(View()) {
        InvStep(View(), a);
      }
      LooseStep(View(), a);
      Execute(a);
    }
  }
}

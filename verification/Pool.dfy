/** The connection pool as a concurrent protocol (src/server/pool.cpp:35-122).

    The mutex makes each critical section one step; everything else interleaves freely. A worker that finds nothing
    to do blocks on the condition variable and goes on only once woken, by a notification or spuriously, and then
    checks again. Enqueueing may fail at any time, which covers the exception the program catches. */
module Pool {
  import opened Text

  type Socket = nat

  datatype Job = Job(client: Socket, queuedAt: nat)

  /** Why a connection was closed. `Served` includes one dropped by an exception while being served. */
  datatype Cause = Refused | Expired | Served | Unserved

  /** `Ready` is about to take the lock for the first time, `Woken` to take it again inside the wait. */
  datatype Worker = Ready | Blocked | Woken | Holding(job: Job) | Serving(client: Socket) | Exited

  /** How far `stop` has come: not called, flag set, everyone notified, everyone joined and the queue destroyed. */
  datatype Stop = Running | Flagged | Notified | Joined

  datatype State = State(
    queueLimit: nat,
    queueWait: nat,
    now: nat,
    queue: seq<Job>,
    workers: seq<Worker>,
    stop: Stop,
    submitting: set<Socket>,
    closed: map<Socket, Cause>,
    arrived: set<Socket>,
    admitted: seq<Socket>,
    taken: seq<Socket>,
    unserved: seq<Socket>)

  datatype Action =
    | Tick(elapsed: nat)
    | Arrive(client: Socket)
    | Enqueue(client: Socket, notified: Option<nat>)
    | Refuse(client: Socket)
    | EnqueueFails(client: Socket)
    | Spurious(worker: nat)
    | Check(worker: nat)
    | Expire(worker: nat)
    | Begin(worker: nat)
    | Finish(worker: nat)
    | SetFlag
    | NotifyAll
    | JoinAll

  function Start(workers: nat, queueLimit: nat, queueWait: nat, now: nat): State
  {
    State(queueLimit, queueWait, now, [], seq(workers, _ => Ready), Running, {}, map[], {}, [], [], [])
  }

  predicate Stopping(s: State) { s.stop != Running }

  predicate HasRoom(s: State) { !Stopping(s) && |s.queue| < s.queueLimit }

  predicate AnyBlocked(workers: seq<Worker>) { exists i :: 0 <= i < |workers| && workers[i] == Blocked }

  predicate AllExited(workers: seq<Worker>) { forall i :: 0 <= i < |workers| ==> workers[i] == Exited }

  function WakeAll(workers: seq<Worker>): (r: seq<Worker>)
    ensures |r| == |workers|
    ensures forall i :: 0 <= i < |r| ==> r[i] == if workers[i] == Blocked then Woken else workers[i]
  {
    seq(|workers|, i requires 0 <= i < |workers| => if workers[i] == Blocked then Woken else workers[i])
  }

  function Clients(queue: seq<Job>): (r: seq<Socket>)
    ensures |r| == |queue| && forall i :: 0 <= i < |r| ==> r[i] == queue[i].client
  {
    seq(|queue|, i requires 0 <= i < |queue| => queue[i].client)
  }

  predicate Enabled(s: State, a: Action) {
    match a
    case Tick(_) => true
    case Arrive(client) => client !in s.arrived
    // One blocked worker is woken, whichever the system picks; with none blocked the notification is lost.
    case Enqueue(client, notified) =>
      && client in s.submitting && HasRoom(s)
      && (match notified
          case Some(i) => i < |s.workers| && s.workers[i] == Blocked
          case None => !AnyBlocked(s.workers))
    case Refuse(client) => client in s.submitting && !HasRoom(s)
    case EnqueueFails(client) => client in s.submitting
    case Spurious(i) => i < |s.workers| && s.workers[i] == Blocked
    case Check(i) => i < |s.workers| && (s.workers[i] == Ready || s.workers[i] == Woken)
    case Expire(i) =>
      i < |s.workers| && s.workers[i].Holding? && s.now - s.workers[i].job.queuedAt > s.queueWait
    case Begin(i) =>
      i < |s.workers| && s.workers[i].Holding? && s.now - s.workers[i].job.queuedAt <= s.queueWait
    case Finish(i) => i < |s.workers| && s.workers[i].Serving?
    case SetFlag => s.stop == Running
    case NotifyAll => s.stop == Flagged
    case JoinAll => s.stop == Notified && AllExited(s.workers)
  }

  function SetWorker(s: State, i: nat, w: Worker): State
    requires i < |s.workers|
  {
    s.(workers := s.workers[i := w])
  }

  function CheckQueue(s: State, i: nat): State
    requires i < |s.workers|
  {
    if Stopping(s) then SetWorker(s, i, Exited)
    else if s.queue == [] then SetWorker(s, i, Blocked)
    else
      SetWorker(s, i, Holding(s.queue[0])).(queue := s.queue[1..], taken := s.taken + [s.queue[0].client])
  }

  function CloseAll(closed: map<Socket, Cause>, clients: seq<Socket>): map<Socket, Cause>
  {
    closed + map c | c in clients :: Unserved
  }

  function Apply(s: State, a: Action): State
    requires Enabled(s, a)
  {
    match a
    case Tick(elapsed) => s.(now := s.now + elapsed)
    case Arrive(client) => s.(arrived := s.arrived + {client}, submitting := s.submitting + {client})
    case Enqueue(client, notified) =>
      s.(submitting := s.submitting - {client},
         queue := s.queue + [Job(client, s.now)],
         admitted := s.admitted + [client],
         workers := if notified.Some? then s.workers[notified.value := Woken] else s.workers)
    case Refuse(client) => s.(submitting := s.submitting - {client}, closed := s.closed[client := Refused])
    case EnqueueFails(client) => s.(submitting := s.submitting - {client}, closed := s.closed[client := Refused])
    case Spurious(i) => SetWorker(s, i, Woken)
    case Check(i) => CheckQueue(s, i)
    case Expire(i) => SetWorker(s, i, Ready).(closed := s.closed[s.workers[i].job.client := Expired])
    case Begin(i) => SetWorker(s, i, Serving(s.workers[i].job.client))
    case Finish(i) => SetWorker(s, i, Ready).(closed := s.closed[s.workers[i].client := Served])
    case SetFlag => s.(stop := Flagged)
    case NotifyAll => s.(stop := Notified, workers := WakeAll(s.workers))
    case JoinAll =>
      s.(stop := Joined, queue := [], unserved := s.unserved + Clients(s.queue),
         closed := CloseAll(s.closed, Clients(s.queue)))
  }

  /** A run is a list of actions, each enabled where it is taken. */
  predicate IsRun(s: State, actions: seq<Action>)
    decreases |actions|
  {
    actions == [] || (Enabled(s, actions[0]) && IsRun(Apply(s, actions[0]), actions[1..]))
  }

  function After(s: State, actions: seq<Action>): State
    requires IsRun(s, actions)
    decreases |actions|
  {
    if actions == [] then s else After(Apply(s, actions[0]), actions[1..])
  }

  // ----- Sums over the workers

  function Total(workers: seq<Worker>, weigh: Worker -> nat): nat
  {
    if workers == [] then 0 else weigh(workers[0]) + Total(workers[1..], weigh)
  }

  function IsWoken(w: Worker): nat { if w == Woken then 1 else 0 }

  /** The steps a worker still takes once the pool is stopping. */
  function StepsLeft(w: Worker): nat
  {
    match w
    case Exited => 0
    case Holding(_) => 3
    case Serving(_) => 2
    case _ => 1
  }

  lemma {:induction false} TotalUpdate(workers: seq<Worker>, i: nat, w: Worker, weigh: Worker -> nat)
    requires i < |workers|
    ensures Total(workers[i := w], weigh) == Total(workers, weigh) - weigh(workers[i]) + weigh(w)
    ensures weigh(workers[i]) <= Total(workers, weigh)
    decreases |workers|
  {
    if i == 0 {
      assert workers[0 := w][1..] == workers[1..];
    } else {
      assert workers[i := w][1..] == workers[1..][i - 1 := w];
      TotalUpdate(workers[1..], i - 1, w, weigh);
    }
  }

  lemma {:induction false} TotalBounded(workers: seq<Worker>, weigh: Worker -> nat, cap: nat)
    requires forall w: Worker :: weigh(w) <= cap
    ensures Total(workers, weigh) <= cap * |workers|
    decreases |workers|
  {
    if workers == [] {
    } else {
      TotalBounded(workers[1..], weigh, cap);
    }
  }

  lemma {:induction false} TotalZero(workers: seq<Worker>)
    ensures Total(workers, StepsLeft) == 0 <==> AllExited(workers)
    decreases |workers|
  {
    if workers == [] {
    } else {
      TotalZero(workers[1..]);
      assert workers == [workers[0]] + workers[1..];
    }
  }

  /** How many of the workers hold a socket, and how often it is queued. */
  function Holds(w: Worker, c: Socket): nat
  {
    match w
    case Holding(job) => if job.client == c then 1 else 0
    case Serving(client) => if client == c then 1 else 0
    case _ => 0
  }

  function InHands(workers: seq<Worker>, c: Socket): nat
  {
    if workers == [] then 0 else Holds(workers[0], c) + InHands(workers[1..], c)
  }

  function InQueue(queue: seq<Job>, c: Socket): nat
  {
    if queue == [] then 0 else (if queue[0].client == c then 1 else 0) + InQueue(queue[1..], c)
  }

  lemma {:induction false} HandsUpdate(workers: seq<Worker>, i: nat, w: Worker, c: Socket)
    requires i < |workers|
    ensures InHands(workers[i := w], c) == InHands(workers, c) - Holds(workers[i], c) + Holds(w, c)
    ensures Holds(workers[i], c) <= InHands(workers, c)
    decreases |workers|
  {
    if i == 0 {
      assert workers[0 := w][1..] == workers[1..];
    } else {
      assert workers[i := w][1..] == workers[1..][i - 1 := w];
      HandsUpdate(workers[1..], i - 1, w, c);
    }
  }

  lemma {:induction false} HandsSame(a: seq<Worker>, b: seq<Worker>, c: Socket)
    requires |a| == |b| && forall i :: 0 <= i < |a| ==> Holds(a[i], c) == Holds(b[i], c)
    ensures InHands(a, c) == InHands(b, c)
    decreases |a|
  {
    if a == [] {
    } else {
      HandsSame(a[1..], b[1..], c);
    }
  }

  lemma {:induction false} HandsEmpty(workers: seq<Worker>, c: Socket)
    requires forall i :: 0 <= i < |workers| ==> Holds(workers[i], c) == 0
    ensures InHands(workers, c) == 0
    decreases |workers|
  {
    if workers == [] {
    } else {
      HandsEmpty(workers[1..], c);
    }
  }

  lemma {:induction false} QueueMore(queue: seq<Job>, job: Job, c: Socket)
    ensures InQueue(queue + [job], c) == InQueue(queue, c) + if job.client == c then 1 else 0
    decreases |queue|
  {
    if queue == [] {
      assert queue + [job] == [job] && [job][1..] == [];
    } else {
      assert (queue + [job])[1..] == queue[1..] + [job];
      QueueMore(queue[1..], job, c);
    }
  }

  lemma {:induction false} QueueHas(queue: seq<Job>, c: Socket)
    ensures InQueue(queue, c) > 0 <==> c in Clients(queue)
    decreases |queue|
  {
    if queue == [] {
    } else {
      QueueHas(queue[1..], c);
      assert Clients(queue) == [queue[0].client] + Clients(queue[1..]);
    }
  }

  // ----- Safety

  /** In how many places a socket is: being submitted, queued, in a worker's hands, or closed. */
  function Places(s: State, c: Socket): nat
  {
    (if c in s.submitting then 1 else 0) + InQueue(s.queue, c) + InHands(s.workers, c)
    + (if c in s.closed then 1 else 0)
  }

  /** Each socket that ever arrived is in exactly one place, and no other socket is in any. */
  ghost predicate Conserved(s: State) {
    forall c: Socket :: Places(s, c) == if c in s.arrived then 1 else 0
  }

  /** Where a worker sleeps, every queued job has a woken worker on its way to it. */
  predicate NoLostWakeup(s: State) {
    !Stopping(s) && AnyBlocked(s.workers) ==> |s.queue| <= Total(s.workers, IsWoken)
  }

  predicate InOrder(s: State) {
    && s.admitted == s.taken + s.unserved + Clients(s.queue)
    && (forall i, j :: 0 <= i < j < |s.queue| ==> s.queue[i].queuedAt <= s.queue[j].queuedAt)
    && (forall i :: 0 <= i < |s.queue| ==> s.queue[i].queuedAt <= s.now)
  }

  predicate StopRules(s: State) {
    && (s.stop == Notified || s.stop == Joined ==> !AnyBlocked(s.workers))
    && (s.stop == Joined ==> AllExited(s.workers) && s.queue == [])
    && (s.stop != Joined ==> s.unserved == [])
  }

  ghost predicate Safe(s: State) {
    NoLostWakeup(s) && InOrder(s) && StopRules(s) && |s.queue| <= s.queueLimit && Conserved(s)
  }

  lemma WakeupStep(s: State, a: Action)
    requires NoLostWakeup(s) && Enabled(s, a)
    ensures NoLostWakeup(Apply(s, a))
  {
    var t := Apply(s, a);
    if !Stopping(t) && AnyBlocked(t.workers) {
      match a
      case Enqueue(_, Some(i)) => TotalUpdate(s.workers, i, Woken, IsWoken);
      case Spurious(i) => TotalUpdate(s.workers, i, Woken, IsWoken);
      case Check(i) =>
        TotalUpdate(s.workers, i, t.workers[i], IsWoken);
        OthersBlocked(s.workers, i, t.workers[i]);
      case Expire(i) => TotalUpdate(s.workers, i, Ready, IsWoken); OthersBlocked(s.workers, i, Ready);
      case Begin(i) => TotalUpdate(s.workers, i, t.workers[i], IsWoken); OthersBlocked(s.workers, i, t.workers[i]);
      case Finish(i) => TotalUpdate(s.workers, i, Ready, IsWoken); OthersBlocked(s.workers, i, Ready);
      case _ =>
    }
  }

  lemma OthersBlocked(workers: seq<Worker>, i: nat, w: Worker)
    requires i < |workers|
    ensures w != Blocked && AnyBlocked(workers[i := w]) ==> AnyBlocked(workers)
  {
    if w != Blocked && AnyBlocked(workers[i := w]) {
      var k :| 0 <= k < |workers| && workers[i := w][k] == Blocked;
      assert workers[k] == Blocked;
    }
  }

  lemma EnqueueInOrder(s: State, job: Job)
    requires InOrder(s) && job.queuedAt == s.now
    ensures InOrder(s.(queue := s.queue + [job], admitted := s.admitted + [job.client]))
  {
    assert Clients(s.queue + [job]) == Clients(s.queue) + [job.client];
  }

  lemma TakeInOrder(s: State)
    requires InOrder(s) && s.queue != [] && s.unserved == []
    ensures InOrder(s.(queue := s.queue[1..], taken := s.taken + [s.queue[0].client]))
  {
    var first, rest := s.queue[0].client, Clients(s.queue[1..]);
    assert Clients(s.queue) == [first] + rest;
    TakeOne(s.taken, first, rest);
    hide Clients;
  }

  lemma TakeOne(taken: seq<Socket>, first: Socket, rest: seq<Socket>)
    ensures taken + [] + ([first] + rest) == taken + [first] + [] + rest
  {
  }

  lemma JoinInOrder(s: State)
    requires InOrder(s)
    ensures InOrder(s.(queue := [], unserved := s.unserved + Clients(s.queue)))
  {
    assert Clients([]) == [];
    assert s.taken + (s.unserved + Clients(s.queue)) + [] == s.taken + s.unserved + Clients(s.queue);
  }

  lemma OrderStep(s: State, a: Action)
    requires InOrder(s) && StopRules(s) && Enabled(s, a)
    ensures InOrder(Apply(s, a))
  {
    match a
    case Enqueue(client, _) => EnqueueInOrder(s, Job(client, s.now));
    case Check(i) =>
      if !Stopping(s) && s.queue != [] {
        TakeInOrder(s);
      }
    case JoinAll => JoinInOrder(s);
    case _ =>
  }

  lemma StopStep(s: State, a: Action)
    requires StopRules(s) && Enabled(s, a)
    ensures StopRules(Apply(s, a))
  {
    var t := Apply(s, a);
    match a
    case Enqueue(_, _) =>
    case Spurious(i) => assert AnyBlocked(s.workers);
    case Check(i) => OthersBlocked(s.workers, i, t.workers[i]);
    case Expire(i) => OthersBlocked(s.workers, i, Ready);
    case Begin(i) => OthersBlocked(s.workers, i, t.workers[i]);
    case Finish(i) => OthersBlocked(s.workers, i, Ready);
    case NotifyAll =>
    case _ =>
  }

  /** What a step does to the places of one socket. */
  lemma PlacesStep(s: State, a: Action, c: Socket)
    requires Conserved(s) && Enabled(s, a)
    ensures var t := Apply(s, a);
            Places(t, c) == if c in t.arrived then 1 else 0
  {
    var t := Apply(s, a);
    assert Places(s, c) == if c in s.arrived then 1 else 0;
    assert forall d: Socket :: Places(s, d) <= 1;
    hide Conserved, InQueue, InHands, Clients;
    match a
    case Enqueue(client, notified) => EnqueuePlaces(s, client, notified, c);
    case Spurious(i) => HandsUpdate(s.workers, i, Woken, c);
    case Check(i) => CheckPlaces(s, i, c);
    case Expire(i) => GivenUpPlaces(s, i, s.workers[i].job.client, Expired, c);
    case Begin(i) => HandsUpdate(s.workers, i, t.workers[i], c);
    case Finish(i) => GivenUpPlaces(s, i, s.workers[i].client, Served, c);
    case NotifyAll => HandsSame(s.workers, t.workers, c);
    case JoinAll => JoinPlaces(s, c);
    case _ =>
  }

  lemma EnqueuePlaces(s: State, client: Socket, notified: Option<nat>, c: Socket)
    requires Enabled(s, Enqueue(client, notified)) && Places(s, client) <= 1
    ensures Places(Apply(s, Enqueue(client, notified)), c) == Places(s, c)
  {
    hide InQueue, InHands, Clients, AnyBlocked;
    QueueMore(s.queue, Job(client, s.now), c);
    if notified.Some? {
      HandsUpdate(s.workers, notified.value, Woken, c);
    }
  }

  /** A worker closes the connection it holds and is free again. */
  lemma GivenUpPlaces(s: State, i: nat, client: Socket, cause: Cause, c: Socket)
    requires i < |s.workers| && Places(s, client) <= 1 && Holds(s.workers[i], client) == 1
    ensures Places(SetWorker(s, i, Ready).(closed := s.closed[client := cause]), c) == Places(s, c)
  {
    hide InQueue, InHands, Clients;
    HandsUpdate(s.workers, i, Ready, c);
    HandsUpdate(s.workers, i, Ready, client);
    assert c != client ==> Holds(s.workers[i], c) == 0;
  }

  lemma CheckPlaces(s: State, i: nat, c: Socket)
    requires Enabled(s, Check(i))
    ensures Places(CheckQueue(s, i), c) == Places(s, c)
  {
    hide InHands;
    HandsUpdate(s.workers, i, CheckQueue(s, i).workers[i], c);
  }

  lemma JoinPlaces(s: State, c: Socket)
    requires Places(s, c) <= 1
    ensures var clients := Clients(s.queue);
            Places(s.(queue := [], closed := CloseAll(s.closed, clients)), c) == Places(s, c)
  {
    hide InHands;
    QueueHas(s.queue, c);
  }

  lemma ConservedStep(s: State, a: Action)
    requires Conserved(s) && Enabled(s, a)
    ensures Conserved(Apply(s, a))
  {
    forall c: Socket ensures Places(Apply(s, a), c) == if c in Apply(s, a).arrived then 1 else 0 {
      PlacesStep(s, a, c);
    }
  }

  /** A closed connection stays closed, for the reason it was closed for. */
  lemma ClosedOnce(s: State, a: Action)
    requires Conserved(s) && Enabled(s, a)
    ensures forall c :: c in s.closed ==> c in Apply(s, a).closed && Apply(s, a).closed[c] == s.closed[c]
  {
    var t := Apply(s, a);
    forall c | c in s.closed ensures c in t.closed && t.closed[c] == s.closed[c] {
      assert Places(s, c) <= 1;
      match a
      case Expire(i) => HandsUpdate(s.workers, i, Ready, c);
      case Finish(i) => HandsUpdate(s.workers, i, Ready, c);
      case JoinAll => QueueHas(s.queue, c);
      case _ =>
    }
  }

  /** What each cause says: a connection is refused while being submitted, expires in the hands of a worker after it has
      waited longer than the pool allows, has been served by the worker that had begun it, or was still queued when the
      pool went. */
  lemma ClosedFor(s: State, a: Action, c: Socket)
    requires Enabled(s, a) && c !in s.closed && c in Apply(s, a).closed
    ensures match Apply(s, a).closed[c]
            case Refused => c in s.submitting
            case Expired =>
              exists i :: 0 <= i < |s.workers| && s.workers[i].Holding? && s.workers[i].job.client == c
                          && s.now > s.workers[i].job.queuedAt + s.queueWait
            case Served => exists i :: 0 <= i < |s.workers| && s.workers[i] == Serving(c)
            case Unserved => Stopping(s) && AllExited(s.workers) && c in Clients(s.queue)
  {
    match a
    case Expire(i) => assert s.workers[i].job.client == c;
    case Finish(i) => assert s.workers[i] == Serving(c);
    case _ =>
  }

  lemma SafeStep(s: State, a: Action)
    requires Safe(s) && Enabled(s, a)
    ensures Safe(Apply(s, a))
  {
    WakeupStep(s, a);
    OrderStep(s, a);
    StopStep(s, a);
    ConservedStep(s, a);
  }

  lemma StartSafe(workers: nat, queueLimit: nat, queueWait: nat, now: nat)
    ensures Safe(Start(workers, queueLimit, queueWait, now))
  {
    var s := Start(workers, queueLimit, queueWait, now);
    forall c: Socket ensures Places(s, c) == 0 {
      HandsEmpty(s.workers, c);
    }
    assert Clients([]) == [];
  }

  /** Every state of every run is safe: no wakeup is lost, jobs leave in arrival order and carry ordered times, the
      queue keeps its limit, and each socket that arrived is in exactly one place. */
  lemma {:induction false} AlwaysSafe(s: State, actions: seq<Action>)
    requires Safe(s) && IsRun(s, actions)
    ensures Safe(After(s, actions))
    decreases |actions|
  {
    if actions == [] {
    } else {
      SafeStep(s, actions[0]);
      AlwaysSafe(Apply(s, actions[0]), actions[1..]);
    }
  }

  predicate SamePool(s: State, t: State) {
    |t.workers| == |s.workers| && t.queueLimit == s.queueLimit && t.queueWait == s.queueWait
  }

  /** No run adds or loses a worker, or moves a limit. */
  lemma {:induction false} PoolKept(s: State, actions: seq<Action>)
    requires IsRun(s, actions)
    ensures SamePool(s, After(s, actions))
    decreases |actions|
  {
    if actions == [] {
    } else {
      PoolKept(Apply(s, actions[0]), actions[1..]);
    }
  }

  /** From the constructor on, whatever the interleaving: the state is safe, and the pool is still the one built. */
  lemma {:induction false} EveryRunSafe(workers: nat, queueLimit: nat, queueWait: nat, now: nat, actions: seq<Action>)
    requires IsRun(Start(workers, queueLimit, queueWait, now), actions)
    ensures var t := After(Start(workers, queueLimit, queueWait, now), actions);
            && Safe(t)
            && |t.workers| == workers && t.queueLimit == queueLimit && t.queueWait == queueWait
            && |t.queue| <= queueLimit
  {
    StartSafe(workers, queueLimit, queueWait, now);
    AlwaysSafe(Start(workers, queueLimit, queueWait, now), actions);
    PoolKept(Start(workers, queueLimit, queueWait, now), actions);
  }

  /** Over a whole run: what has been closed stays closed for its one cause, and what was taken was taken in order. */
  lemma {:induction false} ClosedForGood(s: State, actions: seq<Action>)
    requires Safe(s) && IsRun(s, actions)
    ensures var t := After(s, actions);
            && (forall c :: c in s.closed ==> c in t.closed && t.closed[c] == s.closed[c])
            && s.taken <= t.taken && s.admitted <= t.admitted
    decreases |actions|
  {
    if actions == [] {
    } else {
      var next := Apply(s, actions[0]);
      SafeStep(s, actions[0]);
      ClosedOnce(s, actions[0]);
      ClosedForGood(next, actions[1..]);
      assert s.taken <= next.taken && s.admitted <= next.admitted;
    }
  }

  /** What safety says of a pool that is still running: no job waits in the queue while every worker sleeps, and where
      one sleeps another is already on its way. */
  lemma NobodySleepsOnAJob(s: State)
    requires Safe(s) && !Stopping(s) && s.queue != [] && AnyBlocked(s.workers)
    ensures exists i :: 0 <= i < |s.workers| && s.workers[i] == Woken && Enabled(s, Check(i))
  {
    var i := WokenWorker(s.workers);
    assert Enabled(s, Check(i));
  }

  lemma {:induction false} WokenWorker(workers: seq<Worker>) returns (i: nat)
    requires Total(workers, IsWoken) > 0
    ensures i < |workers| && workers[i] == Woken
    decreases |workers|
  {
    if workers[0] == Woken {
      i := 0;
    } else {
      i := WokenWorker(workers[1..]);
      i := i + 1;
    }
  }

  // ----- A running pool keeps serving

  /** No worker is gone while the pool is running. */
  predicate AllThere(s: State) {
    !Stopping(s) ==> forall i :: 0 <= i < |s.workers| ==> s.workers[i] != Exited
  }

  lemma {:induction false} AlwaysThere(s: State, actions: seq<Action>)
    requires AllThere(s) && IsRun(s, actions)
    ensures AllThere(After(s, actions))
    decreases |actions|
  {
    if actions == [] {
    } else {
      assert AllThere(Apply(s, actions[0]));
      AlwaysThere(Apply(s, actions[0]), actions[1..]);
    }
  }

  lemma RunningProgress(s: State)
    requires Safe(s) && AllThere(s) && !Stopping(s) && s.queue != [] && s.workers != []
    ensures exists a :: IsWorkerStep(a) && Enabled(s, a)
  {
    if AnyBlocked(s.workers) {
      var i := WokenWorker(s.workers);
      assert IsWorkerStep(Check(i)) && Enabled(s, Check(i));
    } else {
      assert s.workers[0] != Exited && s.workers[0] != Blocked;
      var w := s.workers[0];
      var a := if w.Holding? then (if s.now - w.job.queuedAt > s.queueWait then Expire(0) else Begin(0))
               else if w.Serving? then Finish(0) else Check(0);
      assert IsWorkerStep(a) && Enabled(s, a);
    }
  }

  /** In every run: a worker has exited only if the pool is stopping, and while it is not, a queued job always has some
      worker with a step to take. */
  lemma {:induction false} EveryRunServes(workers: nat, queueLimit: nat, queueWait: nat, now: nat, actions: seq<Action>)
    requires IsRun(Start(workers, queueLimit, queueWait, now), actions)
    ensures var t := After(Start(workers, queueLimit, queueWait, now), actions);
            && ((exists i :: 0 <= i < |t.workers| && t.workers[i] == Exited) ==> Stopping(t))
            && (!Stopping(t) && t.queue != [] && workers > 0 ==> exists a :: IsWorkerStep(a) && Enabled(t, a))
  {
    var s := Start(workers, queueLimit, queueWait, now);
    AlwaysThere(s, actions);
    EveryRunSafe(workers, queueLimit, queueWait, now, actions);
    var t := After(s, actions);
    hide After, Start, Safe;
    if !Stopping(t) && t.queue != [] && workers > 0 {
      RunningProgress(t);
    }
  }

  lemma WaitingStep(s: State, a: Action)
    requires Enabled(s, a) && s.queue != [] && !Stopping(Apply(s, a)) && Apply(s, a).taken == s.taken
    ensures var t := Apply(s, a);
            && !Stopping(s) && t.queue != [] && t.queue[0] == s.queue[0]
            && Total(t.workers, StepsLeft) + (if IsWorkerStep(a) then 1 else 0) <= Total(s.workers, StepsLeft)
  {
    var t := Apply(s, a);
    match a
    case Enqueue(_, Some(i)) => TotalUpdate(s.workers, i, Woken, StepsLeft);
    case Spurious(i) => TotalUpdate(s.workers, i, Woken, StepsLeft);
    case Expire(i) => TotalUpdate(s.workers, i, Ready, StepsLeft);
    case Begin(i) => TotalUpdate(s.workers, i, t.workers[i], StepsLeft);
    case Finish(i) => TotalUpdate(s.workers, i, Ready, StepsLeft);
    case _ =>
  }

  lemma {:induction false} TakenGrows(s: State, actions: seq<Action>)
    requires IsRun(s, actions)
    ensures s.taken <= After(s, actions).taken && (Stopping(s) ==> Stopping(After(s, actions)))
    decreases |actions|
  {
    if actions == [] {
    } else {
      var next := Apply(s, actions[0]);
      TakenGrows(next, actions[1..]);
      assert s.taken <= next.taken;
      assert Stopping(s) ==> Stopping(next);
    }
  }

  /** And the job in front does not wait for ever: while it does, in a running pool, the workers between them take at
      most three steps each. */
  lemma {:induction false} FrontSoonTaken(s: State, actions: seq<Action>)
    requires s.queue != [] && IsRun(s, actions)
    requires !Stopping(After(s, actions)) && After(s, actions).taken == s.taken
    ensures Steps(actions, IsWorkerStep) <= Total(s.workers, StepsLeft) <= 3 * |s.workers|
    decreases |actions|
  {
    TotalBounded(s.workers, StepsLeft, 3);
    if actions == [] {
    } else {
      var next := Apply(s, actions[0]);
      TakenGrows(next, actions[1..]);
      StepTakes(s, actions[0]);
      WaitingStep(s, actions[0]);
      FrontSoonTaken(next, actions[1..]);
    }
  }

  lemma StepTakes(s: State, a: Action)
    requires Enabled(s, a)
    ensures s.taken <= Apply(s, a).taken
  {
  }

  // ----- Clean shutdown

  predicate IsWorkerStep(a: Action) { a.Check? || a.Expire? || a.Begin? || a.Finish? }

  function Steps(actions: seq<Action>, counts: Action -> bool): nat
  {
    if actions == [] then 0 else (if counts(actions[0]) then 1 else 0) + Steps(actions[1..], counts)
  }

  predicate Draining(s: State) { s.stop == Notified || s.stop == Joined }

  lemma DrainingStep(s: State, a: Action)
    requires Safe(s) && Draining(s) && Enabled(s, a)
    ensures var t := Apply(s, a);
            && Draining(t) && |t.workers| == |s.workers|
            && Total(t.workers, StepsLeft) + (if IsWorkerStep(a) then 1 else 0) <= Total(s.workers, StepsLeft)
  {
    var t := Apply(s, a);
    assert forall i :: 0 <= i < |s.workers| ==> s.workers[i] != Blocked;
    match a
    case Check(i) => TotalUpdate(s.workers, i, t.workers[i], StepsLeft);
    case Expire(i) => TotalUpdate(s.workers, i, Ready, StepsLeft);
    case Begin(i) => TotalUpdate(s.workers, i, t.workers[i], StepsLeft);
    case Finish(i) => TotalUpdate(s.workers, i, Ready, StepsLeft);
    case _ =>
  }

  /** Once everyone has been notified no worker is ever blocked again, and the workers between them take at most three
      more steps each, whatever else happens: each ends the connection it has and exits. */
  lemma {:induction false} ShutdownIsBounded(s: State, actions: seq<Action>)
    requires Safe(s) && Draining(s) && IsRun(s, actions)
    ensures var t := After(s, actions);
            && Draining(t) && !AnyBlocked(t.workers) && |t.workers| == |s.workers|
            && Steps(actions, IsWorkerStep) + Total(t.workers, StepsLeft) <= Total(s.workers, StepsLeft) <= 3 * |s.workers|
    decreases |actions|
  {
    TotalBounded(s.workers, StepsLeft, 3);
    if actions == [] {
    } else {
      DrainingStep(s, actions[0]);
      SafeStep(s, actions[0]);
      ShutdownIsBounded(Apply(s, actions[0]), actions[1..]);
    }
  }

  predicate StepOf(a: Action, i: nat) { IsWorkerStep(a) && a.worker == i }

  /** The connection a worker has, taken off the queue or already being served. */
  function Carried(w: Worker): Option<Socket>
  {
    match w
    case Holding(job) => Some(job.client)
    case Serving(client) => Some(client)
    case _ => None
  }

  function One(b: bool): nat { if b then 1 else 0 }

  lemma DrainingWorker(s: State, a: Action, i: nat)
    requires Safe(s) && Draining(s) && Enabled(s, a) && i < |s.workers|
    ensures var t := Apply(s, a);
            && |t.workers| == |s.workers|
            && One(StepOf(a, i)) + StepsLeft(t.workers[i]) <= StepsLeft(s.workers[i])
            && One(a == Begin(i)) + One(t.workers[i].Holding?) <= One(s.workers[i].Holding?)
            && One(a == Finish(i)) + One(Carried(t.workers[i]).Some?) <= One(Carried(s.workers[i]).Some?)
            && (Carried(t.workers[i]).Some? ==> Carried(t.workers[i]) == Carried(s.workers[i]))
  {
    assert s.workers[i] != Blocked;
    hide Safe, Draining;
  }

  /** For each worker alone: once everyone has been notified it takes at most the steps its own state calls for, three
      at the most; it begins at most the connection it already holds and finishes at most the one it already has; and
      it never has another. */
  lemma {:induction false} ShutdownOfWorker(s: State, actions: seq<Action>, i: nat)
    requires Safe(s) && Draining(s) && IsRun(s, actions) && i < |s.workers|
    ensures var t := After(s, actions);
            && |t.workers| == |s.workers|
            && Steps(actions, a => StepOf(a, i)) + StepsLeft(t.workers[i]) <= StepsLeft(s.workers[i]) <= 3
            && Steps(actions, a => a == Begin(i)) + One(t.workers[i].Holding?) <= One(s.workers[i].Holding?)
            && Steps(actions, a => a == Finish(i)) + One(Carried(t.workers[i]).Some?)
                 <= One(Carried(s.workers[i]).Some?)
            && (Carried(t.workers[i]).Some? ==> Carried(t.workers[i]) == Carried(s.workers[i]))
    decreases |actions|
  {
    if actions == [] {
    } else {
      DrainingWorker(s, actions[0], i);
      DrainingStep(s, actions[0]);
      SafeStep(s, actions[0]);
      ShutdownOfWorker(Apply(s, actions[0]), actions[1..], i);
      hide Safe, Draining, Enabled, Apply, StepsLeft, StepOf, Carried, One;
    }
  }

  /** And until all of them have exited one of them can always take a step, so `stop` cannot hang on the pool. */
  lemma ShutdownProgress(s: State)
    requires Safe(s) && Draining(s) && !AllExited(s.workers)
    ensures exists a :: IsWorkerStep(a) && Enabled(s, a)
  {
    var i :| 0 <= i < |s.workers| && s.workers[i] != Exited;
    assert s.workers[i] != Blocked;
    var w := s.workers[i];
    var a := if w.Holding? then (if s.now - w.job.queuedAt > s.queueWait then Expire(i) else Begin(i))
             else if w.Serving? then Finish(i) else Check(i);
    assert IsWorkerStep(a) && Enabled(s, a);
  }

  /** From the moment the flag is set no job is taken and nothing is admitted. */
  lemma {:induction false} NoneTakenWhileStopping(s: State, actions: seq<Action>)
    requires Stopping(s) && IsRun(s, actions)
    ensures var t := After(s, actions);
            Stopping(t) && t.taken == s.taken && t.admitted == s.admitted
    decreases |actions|
  {
    if actions == [] {
    } else {
      var t := Apply(s, actions[0]);
      assert Stopping(t) && t.taken == s.taken && t.admitted == s.admitted by {
        match actions[0]
        case Check(i) =>
        case _ =>
      }
      NoneTakenWhileStopping(t, actions[1..]);
    }
  }

  /** No worker was held up forever: when `stop` returns every socket that ever arrived has been closed, but for those
      still being submitted, and what was admitted is what was taken and then what was left unserved. */
  lemma AllAccountedFor(s: State)
    requires Safe(s) && s.stop == Joined
    ensures forall c :: c in s.arrived ==> (c in s.closed <==> c !in s.submitting)
    ensures s.admitted == s.taken + s.unserved
  {
    assert s.taken + s.unserved + [] == s.taken + s.unserved;
    assert Clients(s.queue) == [];
    forall c | c in s.arrived ensures c in s.closed <==> c !in s.submitting {
      assert Places(s, c) == 1;
      HandsEmpty(s.workers, c);
    }
  }

  // ----- How many connections are open

  /** The connections the pool has been given and not closed. */
  function Open(s: State): set<Socket> { set c | c in s.arrived && c !in s.submitting && c !in s.closed }

  /** Those of them that no longer wait in the queue. */
  function Live(s: State): set<Socket> { set c | c in Open(s) && c !in Clients(s.queue) }

  lemma {:induction false} HandsBounded(workers: seq<Worker>, clients: set<Socket>)
    requires forall c :: c in clients ==> InHands(workers, c) > 0
    ensures |clients| <= |workers|
    decreases |workers|
  {
    if workers == [] {
      assert forall c: Socket :: InHands(workers, c) == 0;
      assert clients == {};
    } else {
      var first := set c | c in clients && Holds(workers[0], c) > 0;
      HandsBounded(workers[1..], clients - first);
      HoldsOne(workers[0], first);
      assert clients == first + (clients - first);
    }
  }

  lemma HoldsOne(w: Worker, clients: set<Socket>)
    requires forall c :: c in clients ==> Holds(w, c) > 0
    ensures |clients| <= 1
  {
    if clients == {} {
    } else {
      var c :| c in clients;
      assert forall d :: d in clients ==> d == c;
      assert clients == {c};
    }
  }

  function Elements(clients: seq<Socket>): set<Socket> { set c | c in clients }

  lemma {:induction false} ElementsBounded(clients: seq<Socket>)
    ensures |Elements(clients)| <= |clients|
    decreases |clients|
  {
    if clients == [] {
      assert Elements(clients) == {};
    } else {
      ElementsBounded(clients[1..]);
      assert Elements(clients) == {clients[0]} + Elements(clients[1..]);
    }
  }

  /** In every state of every run at most as many connections are live as the pool was built with workers, each in the
      hands of exactly one of them, and no more are open than workers and queue places together. */
  lemma {:induction false} LiveBounded(workers: nat, queueLimit: nat, queueWait: nat, now: nat, actions: seq<Action>)
    requires IsRun(Start(workers, queueLimit, queueWait, now), actions)
    ensures var t := After(Start(workers, queueLimit, queueWait, now), actions);
            && (forall c :: c in Live(t) ==> InHands(t.workers, c) == 1)
            && |Live(t)| <= workers && |Open(t)| <= workers + queueLimit
  {
    var t := After(Start(workers, queueLimit, queueWait, now), actions);
    EveryRunSafe(workers, queueLimit, queueWait, now, actions);
    hide After, Start, InHands, InQueue, Safe, Conserved;
    assert Conserved(t) by { SafeConserves(t); }
    forall c | c in Live(t) ensures InHands(t.workers, c) == 1 {
      QueueHas(t.queue, c);
      PlaceOf(t, c);
    }
    HandsBounded(t.workers, Live(t));
    ElementsBounded(Clients(t.queue));
    SubsetBounded(Open(t), Live(t), Elements(Clients(t.queue)));
  }

  lemma PlaceOf(s: State, c: Socket)
    requires Conserved(s)
    ensures Places(s, c) == if c in s.arrived then 1 else 0
  {
  }

  lemma SafeConserves(s: State)
    requires Safe(s)
    ensures Conserved(s)
  {
  }

  lemma SubsetBounded(all: set<Socket>, a: set<Socket>, b: set<Socket>)
    requires all <= a + b
    ensures |all| <= |a| + |b|
  {
    assert a + b == all + (a + b - all);
    assert a + b == a + (b - a) && |b| == |b - a| + |b * a| by { assert b == (b - a) + b * a; }
  }
}

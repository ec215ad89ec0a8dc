/** The pool's object: its critical sections, each proved to be one step of the protocol in `Pool`
    (src/server/pool.cpp:52-122). The threads themselves, which the object only starts and joins, are the protocol's. */
module Pooling {
  import opened Text
  import opened Pool

  class ConnectionPool {
    const queueLimit: nat
    const queueWait: nat
    var queue: seq<Job>
    var stopping: bool

    /** Where the threads and every socket are. */
    ghost var state: State

    ghost predicate Valid()
      reads this
    {
      && Safe(state)
      && state.queue == queue && Stopping(state) == stopping
      && state.queueLimit == queueLimit && state.queueWait == queueWait
    }

    constructor (ghost workers: nat, queueLimit: nat, queueWait: nat, ghost now: nat)
      ensures Valid() && state == Start(workers, queueLimit, queueWait, now)
    {
      this.queueLimit, this.queueWait := queueLimit, queueWait;
      queue, stopping := [], false;
      state := Start(workers, queueLimit, queueWait, now);
      StartSafe(workers, queueLimit, queueWait, now);
    }

    /** Something the clock, the threads or a notification did without touching the object's own fields. */
    ghost method Elsewhere(a: Action)
      requires Valid() && Enabled(state, a) && (a.Tick? || a.Arrive? || a.Spurious? || a.Finish? || a.NotifyAll?)
      modifies this`state
      ensures Valid() && state == Apply(old(state), a)
    {
      SafeStep(state, a);
      state := Apply(state, a);
    }

    /** Takes one accepted connection; `fails` is the push that throws. One not queued is refused and closed. */
    method Submit(client: Socket, now: nat, fails: bool, ghost notified: Option<nat>) returns (queued: bool)
      requires Valid() && client in state.submitting && now == state.now
      requires !fails && HasRoom(state) ==> Enabled(state, Enqueue(client, notified))
      modifies this
      ensures Valid() && (queued <==> !fails && !old(stopping) && |old(queue)| < queueLimit)
      ensures state == Apply(old(state), if queued then Enqueue(client, notified)
                                         else if fails then EnqueueFails(client) else Refuse(client))
    {
      queued := !fails && !stopping && |queue| < queueLimit;
      ghost var a := if queued then Enqueue(client, notified)
                     else if fails then EnqueueFails(client) else Refuse(client);
      SafeStep(state, a);
      if queued {
        queue := queue + [Job(client, now)];
      }
      state := Apply(state, a);
    }

    /** A worker with the lock: it leaves for good, takes the job at the front, or goes to sleep. */
    method NextJob(ghost worker: nat) returns (job: Option<Job>, leave: bool)
      requires Valid() && Enabled(state, Check(worker))
      modifies this`queue, this`state
      ensures Valid() && state == Apply(old(state), Check(worker))
      ensures leave == stopping && (job.Some? <==> !stopping && old(queue) != [])
      ensures job.Some? ==> job.value == old(queue)[0] && queue == old(queue)[1..]
      ensures state.workers[worker] ==
              if leave then Exited else if job.Some? then Holding(job.value) else Blocked
    {
      SafeStep(state, Check(worker));
      state := Apply(state, Check(worker));
      if stopping {
        return None, true;
      }
      if queue == [] {
        return None, false;
      }
      job, leave := Some(queue[0]), false;
      queue := queue[1..];
    }

    /** A job that has waited too long is refused instead of served. */
    method Claim(job: Job, now: nat, ghost worker: nat) returns (serve: bool)
      requires Valid() && now == state.now
      requires worker < |state.workers| && state.workers[worker] == Holding(job)
      modifies this`state
      ensures Valid() && (serve <==> now - job.queuedAt <= queueWait)
      ensures state == Apply(old(state), if serve then Begin(worker) else Expire(worker))
    {
      serve := !(now - job.queuedAt > queueWait);
      ghost var a := if serve then Begin(worker) else Expire(worker);
      SafeStep(state, a);
      state := Apply(state, a);
    }

    /** The first half of `stop`, under the lock. */
    method RaiseFlag()
      requires Valid() && state.stop == Running
      modifies this`stopping, this`state
      ensures Valid() && stopping && state == Apply(old(state), SetFlag)
    {
      SafeStep(state, SetFlag);
      stopping := true;
      state := Apply(state, SetFlag);
    }

    /** Once every worker has been joined the queue goes, and with it every connection still in it. */
    method Destroy() returns (unserved: seq<Job>)
      requires Valid() && Enabled(state, JoinAll)
      modifies this`queue, this`state
      ensures Valid() && queue == [] && unserved == old(queue) && state == Apply(old(state), JoinAll)
      ensures forall c :: c in state.arrived ==> (c in state.closed <==> c !in state.submitting)
    {
      SafeStep(state, JoinAll);
      state := Apply(state, JoinAll);
      unserved := queue;
      queue := [];
      AllAccountedFor(state);
    }
  }
}

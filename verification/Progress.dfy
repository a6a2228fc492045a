/** What the pipeline can always still do: no session, object or file is ever stuck. */
module Progress {
  import opened Bytes
  import opened Codec
  import opened AuditLog
  import opened Framing
  import opened Session
  import opened Pipeline

  /** A state that can be reached, with the writer at work and the queue open. */
  ghost predicate Live(c: Config, s0: State, steps: seq<Step>) {
    && ValidConfig(c) && Init(c, s0) && Execute(c, s0, steps).Some?
    && Execute(c, s0, steps).value.writer != Stopped && !Execute(c, s0, steps).value.closed
  }

  ghost function Now(c: Config, s0: State, steps: seq<Step>): State
    requires Live(c, s0, steps)
  {
    Execute(c, s0, steps).value
  }

  lemma OneStep(c: Config, s0: State, steps: seq<Step>, step: Step)
    requires Live(c, s0, steps) && Do(c, Now(c, s0, steps), step).Some?
    ensures Execute(c, s0, steps + [step]) == Do(c, Now(c, s0, steps), step)
    ensures var s := Do(c, Now(c, s0, steps), step).value;
            s.writer != Stopped && !s.closed ==> Live(c, s0, steps + [step]) && Now(c, s0, steps + [step]) == s
  {
    ExecuteMore(c, s0, steps, step);
    hide Execute, Do, Init, ValidConfig;
  }

  lemma LiveInvariant(c: Config, s0: State, steps: seq<Step>)
    requires Live(c, s0, steps)
    ensures Invariant(c, Now(c, s0, steps))
  {
    RunKeepsInvariant(c, s0, steps);
  }

  // The writer

  /** Everything a session sees, and what has been pushed, is as it was. */
  ghost predicate SameSessions(s: State, s': State) {
    s'.clients == s.clients && s'.heap == s.heap && s'.pushed == s.pushed && s'.closed == s.closed
  }

  /** What the writer does with the object in its hand. */
  lemma HandStep(c: Config, s: State) returns (step: Step)
    requires Invariant(c, s) && (s.writer.Writing? || s.writer.Written?)
    ensures Do(c, s, step).Some?
    ensures var s' := Do(c, s, step).value;
            && SameSessions(s, s') && s'.queue == s.queue
            && s'.writer == if s.writer.Writing? then Written(s.writer.id) else Waiting
  {
    hide Stocked, Isolated, Attributed, Apply, Created, Holds;
    step := if s.writer.Writing? then Encode else Recycle;
  }

  /** The writer can finish with the object in its hand. */
  lemma FreeHand(c: Config, s0: State, steps: seq<Step>) returns (all: seq<Step>)
    requires Live(c, s0, steps)
    ensures Live(c, s0, all) && SameSessions(Now(c, s0, steps), Now(c, s0, all))
    ensures Now(c, s0, all).queue == Now(c, s0, steps).queue && Now(c, s0, all).writer == Waiting
    decreases if Now(c, s0, steps).writer.Writing? then 2 else if Now(c, s0, steps).writer.Written? then 1 else 0
  {
    var s := Now(c, s0, steps);
    LiveInvariant(c, s0, steps);
    hide Live, Now, Do, Invariant;
    assert s.writer != Stopped by { StillWorking(c, s0, steps); }
    all := steps;
    if s.writer != Waiting {
      assert s.writer.Writing? || s.writer.Written?;
      var step := HandStep(c, s);
      StillWorking(c, s0, steps);
      OneStep(c, s0, steps, step);
      all := FreeHand(c, s0, steps + [step]);
    }
  }

  lemma StillWorking(c: Config, s0: State, steps: seq<Step>)
    requires Live(c, s0, steps)
    ensures Now(c, s0, steps).writer != Stopped && !Now(c, s0, steps).closed
  {
  }

  /** The writer can empty the queue without closing anything. */
  lemma {:induction false} Settle(c: Config, s0: State, steps: seq<Step>) returns (all: seq<Step>)
    requires Live(c, s0, steps)
    ensures Live(c, s0, all) && SameSessions(Now(c, s0, steps), Now(c, s0, all))
    ensures Now(c, s0, all).queue == [] && Now(c, s0, all).writer == Waiting
    decreases |Now(c, s0, steps).queue|
  {
    all := FreeHand(c, s0, steps);
    var s := Now(c, s0, all);
    if s.queue != [] {
      StillWorking(c, s0, all);
      OneStep(c, s0, all, Receive);
      hide Live, Now, Execute;
      all := Settle(c, s0, all + [Receive]);
    }
  }

  /** A tick can come whenever the writer is at work, to any path. */
  lemma WriterCanRotate(c: Config, s0: State, steps: seq<Step>, p: Path) returns (all: seq<Step>)
    requires Live(c, s0, steps)
    ensures Live(c, s0, all) && SameSessions(Now(c, s0, steps), Now(c, s0, all))
    ensures
      var (s, s') := (Now(c, s0, steps), Now(c, s0, all));
      && s'.queue == s.queue && s'.events != [] && s'.events[|s'.events| - 1] == Rotate(p)
      && Logging(s') == Logging(s)
  {
    var done := FreeHand(c, s0, steps);
    var s := Now(c, s0, done);
    LiveInvariant(c, s0, steps);
    LiveInvariant(c, s0, done);
    assert Do(c, s, Tick(p)).Some?;
    OneStep(c, s0, done, Tick(p));
    StillWorking(c, s0, done);
    all := done + [Tick(p)];
    LiveInvariant(c, s0, all);
    hide Execute, Owned, Stocked, Isolated, OnDisk, Attributed, Logging, Live, Init, ValidConfig;
  }

  /** And so can cancellation. */
  lemma WriterCanStop(c: Config, s0: State, steps: seq<Step>) returns (all: seq<Step>)
    requires Live(c, s0, steps)
    ensures Execute(c, s0, all).Some? && SameSessions(Now(c, s0, steps), Execute(c, s0, all).value)
    ensures Execute(c, s0, all).value.writer == Stopped
  {
    var done := FreeHand(c, s0, steps);
    LiveInvariant(c, s0, done);
    assert Do(c, Now(c, s0, done), Cancel).Some?;
    OneStep(c, s0, done, Cancel);
    all := done + [Cancel];
    hide Execute, Owned, Stocked, Isolated, OnDisk, Attributed, Init, ValidConfig;
  }

  // The sessions

  /** A session's action waits for nothing but an object to take, or room in the open queue. */
  lemma SessionEnabledIff(c: Config, s: State, i: nat, a: Action, id: Id)
    requires Invariant(c, s) && i < |s.clients|
    ensures Do(c, s, Step.Session(i, a, id)).Some? <==>
              && Act(s.clients[i].info, Seen(s, i), a).Some?
              && (a.Get? ==> CanGet(s, id, a.stale))
              && (a.Push? ==> |s.queue| < c.capacity && !s.closed)
  {
    hide Owned, Stocked, Isolated, Snapshot, OnDisk, Attributed, CanGet, Stamped, IsPacket;
  }

  /** An object of the pool can be taken again, with what is left in it, by any session that needs one, or dropped. */
  lemma PooledObjectCanBeTaken(c: Config, s: State, i: nat, datetime: int64, id: Id)
    requires Invariant(c, s) && i < |s.clients| && id in s.pool
    requires s.clients[i].local.phase in {Start, Idle, Stopping}
    ensures id in s.heap
    ensures var step := Step.Session(i, Get(datetime, s.heap[id]), id);
            && Do(c, s, step).Some?
            && Do(c, s, step).value.clients[i].hand == Some(id) && id !in Do(c, s, step).value.pool
    ensures Do(c, s, Collect(id)).Some? && id !in Do(c, s, Collect(id)).value.pool
  {
    RunKeepsInv(s.clients[i].info, s.clients[i].trace);
    assert HeldInv(s.clients[i].info, Seen(s, i));
    SessionEnabledIff(c, s, i, Get(datetime, s.heap[id]), id);
    hide Stocked, Snapshot, OnDisk, Attributed, Stamped, LogShape, LostInv, AllPackets, Run;
  }

  lemma {:induction false} AboveAll(ids: set<Id>) returns (n: Id)
    ensures forall id :: id in ids ==> id < n
  {
    n := 0;
    if ids != {} {
      var id :| id in ids;
      n := AboveAll(ids - {id});
      n := if n <= id then id + 1 else n;
      assert ids == ids - {id} + {id};
    }
  }

  /** The session has taken one more action, and the others have not. */
  ghost predicate Acted(s: State, s': State, i: nat, a: Action) {
    && i < |s.clients| == |s'.clients|
    && Some(Seen(s', i)) == Act(s.clients[i].info, Seen(s, i), a)
    && s'.clients[i].info == s.clients[i].info && s'.clients[i].trace == s.clients[i].trace + [a]
    && forall j :: 0 <= j < |s.clients| && j != i ==> s'.clients[j] == s.clients[j] && Seen(s', j) == Seen(s, j)
  }

  /** Any action of a session is possible, after the writer has made room for it; a Get finds a new object. */
  lemma ActionCanRun(c: Config, s0: State, steps: seq<Step>, i: nat, a: Action) returns (all: seq<Step>)
    requires Live(c, s0, steps) && c.capacity > 0 && i < |Now(c, s0, steps).clients|
    requires Act(Now(c, s0, steps).clients[i].info, Seen(Now(c, s0, steps), i), a).Some?
    requires a.Get? ==> a.stale == NewObject()
    ensures Live(c, s0, all) && Acted(Now(c, s0, steps), Now(c, s0, all), i, a)
  {
    var settled := Settle(c, s0, steps);
    var s, s' := Now(c, s0, steps), Now(c, s0, settled);
    assert forall j :: 0 <= j < |s.clients| ==> Seen(s', j) == Seen(s, j);
    LiveInvariant(c, s0, settled);
    StillWorking(c, s0, settled);
    var id := AboveAll(s'.heap.Keys);
    assert id !in s'.heap && id !in s'.pool;
    SessionEnabledIff(c, s', i, a, id);
    SessionSteps(c, s', i, a, id);
    SessionLeavesQueued(c, s', i, a, id);
    StaysOpen(c, s', i, a, id);
    OneStep(c, s0, settled, Step.Session(i, a, id));
    all := settled + [Step.Session(i, a, id)];
    hide Live, Now, Execute, Invariant, Act, DoSession, Seen;
  }

  lemma StaysOpen(c: Config, s: State, i: nat, a: Action, id: Id)
    requires DoSession(c, s, i, a, id).Some?
    ensures DoSession(c, s, i, a, id).value.closed == s.closed
  {
    hide Act, NewObject, CanGet;
  }

  // Every session can finish, and lose nothing more

  function Rank(phase: Phase): nat {
    match phase
    case Start => 5
    case Announcing(kind) => if kind == Connect then 4 else 1
    case Sent => 4
    case Idle => 3
    case Holding => 3
    case Stopping => 2
    case Done => 0
  }

  /** The way to the end on which no push is lost and nothing more is forwarded. */
  function NextAction(phase: Phase): Action {
    match phase
    case Start => Get(0, NewObject())
    case Stopping => Get(0, NewObject())
    case Announcing(_) => Push
    case Sent => Push
    case Holding => Put
    case _ => Leave
  }

  lemma NextActionWorks(info: Info, l: Local)
    requires Inv(info, l) && l.phase != Done
    ensures Act(info, l, NextAction(l.phase)).Some?
    ensures
      var l' := Act(info, l, NextAction(l.phase)).value;
      Rank(l'.phase) < Rank(l.phase) && l'.forwarded == l.forwarded && l'.lost == l.lost
  {
    hide LogShape, AllPackets, Stamped, NewObject;
  }

  /** A session that is at its end, with what it had forwarded and lost before. */
  predicate FinishedAs(client: Client, before: Client) {
    && client.info == before.info && client.local.phase == Done
    && client.local.forwarded == before.local.forwarded && client.local.lost == before.local.lost
  }

  lemma {:induction false} SessionCanFinish(c: Config, s0: State, steps: seq<Step>, i: nat) returns (all: seq<Step>)
    requires Live(c, s0, steps) && c.capacity > 0 && i < |Now(c, s0, steps).clients|
    ensures Live(c, s0, all)
    ensures
      var (s, s') := (Now(c, s0, steps), Now(c, s0, all));
      && |s'.clients| == |s.clients| && FinishedAs(s'.clients[i], s.clients[i])
      && forall j :: 0 <= j < |s.clients| && j != i ==> s'.clients[j] == s.clients[j]
    decreases Rank(Now(c, s0, steps).clients[i].local.phase)
  {
    var s := Now(c, s0, steps);
    all := steps;
    if s.clients[i].local.phase != Done {
      LiveInvariant(c, s0, steps);
      RunKeepsInv(s.clients[i].info, s.clients[i].trace);
      NextActionWorks(s.clients[i].info, Seen(s, i));
      hide Live, Now, Invariant, Act, Inv, Run, Rank, NextAction;
      all := ActionCanRun(c, s0, steps, i, NextAction(s.clients[i].local.phase));
      all := SessionCanFinish(c, s0, all, i);
    }
  }

  lemma {:induction false} SessionsCanFinish(c: Config, s0: State, steps: seq<Step>, n: nat) returns (all: seq<Step>)
    requires Live(c, s0, steps) && c.capacity > 0 && n <= |Now(c, s0, steps).clients|
    ensures Live(c, s0, all)
    ensures
      var (s, s') := (Now(c, s0, steps), Now(c, s0, all));
      && |s'.clients| == |s.clients|
      && (forall i :: 0 <= i < n ==> FinishedAs(s'.clients[i], s.clients[i]))
      && forall i :: n <= i < |s.clients| ==> s'.clients[i] == s.clients[i]
  {
    all := steps;
    hide Live, Now;
    if n > 0 {
      all := SessionsCanFinish(c, s0, steps, n - 1);
      all := SessionCanFinish(c, s0, all, n - 1);
    }
  }

  /**
   * From every state that can be reached before the writer stops, with room for one object in the queue: the sessions
   * can all come to their ends with what they have forwarded and lost so far, and the writer can then drain the queue.
   */
  lemma RunsCanComplete(c: Config, s0: State, steps: seq<Step>) returns (all: seq<Step>)
    requires Live(c, s0, steps) && c.capacity > 0
    ensures Execute(c, s0, all).Some?
    ensures
      var (s, s') := (Now(c, s0, steps), Execute(c, s0, all).value);
      && s'.writer == Stopped && s'.queue == [] && |s'.clients| == |s.clients|
      && forall i :: 0 <= i < |s.clients| ==> FinishedAs(s'.clients[i], s.clients[i])
  {
    var finished := SessionsCanFinish(c, s0, steps, |Now(c, s0, steps).clients|);
    all := WriterCanDrain(c, s0, finished);
  }

  // Every run of the session machine is a run of the pipeline

  /** Objects are taken as the pool makes them. */
  predicate NewObjects(trace: seq<Action>) {
    forall k :: 0 <= k < |trace| && trace[k].Get? ==> trace[k].stale == NewObject()
  }

  /** A session that has not started. */
  predicate Unstarted(client: Client) {
    client.local == Initial() && client.hand == None && client.trace == []
  }

  lemma {:induction false} TraceCanRun(c: Config, s0: State, steps: seq<Step>, i: nat, trace: seq<Action>)
    returns (all: seq<Step>)
    requires Live(c, s0, steps) && c.capacity > 0
    requires i < |Now(c, s0, steps).clients| && Unstarted(Now(c, s0, steps).clients[i])
    requires Run(Now(c, s0, steps).clients[i].info, trace).Some? && NewObjects(trace)
    ensures Live(c, s0, all)
    ensures
      var (s, s') := (Now(c, s0, steps), Now(c, s0, all));
      && |s'.clients| == |s.clients| && s'.clients[i].info == s.clients[i].info && s'.clients[i].trace == trace
      && Some(Seen(s', i)) == Run(s.clients[i].info, trace)
      && forall j :: 0 <= j < |s.clients| && j != i ==> s'.clients[j] == s.clients[j]
    decreases |trace|
  {
    all := steps;
    if trace != [] {
      var n := |trace| - 1;
      all := TraceCanRun(c, s0, steps, i, trace[..n]);
      hide Live, Now, Act, Seen;
      all := ActionCanRun(c, s0, all, i, trace[n]);
      assert trace == trace[..n] + [trace[n]];
    }
  }

  /** Sessions that have not started, and the first log file open. */
  function Beginning(c: Config, infos: seq<Info>): State {
    State(seq(|infos|, i requires 0 <= i < |infos| => Client(infos[i], Initial(), None, [])),
      map[], {}, [], false, Waiting, Created(c.log, c.path), [], [])
  }

  ghost predicate Runnable(infos: seq<Info>, traces: seq<seq<Action>>) {
    && |traces| == |infos|
    && (forall i :: 0 <= i < |infos| ==> infos[i].Fits() && Run(infos[i], traces[i]).Some? && NewObjects(traces[i]))
    && forall i, j :: 0 <= i < j < |infos| ==> infos[i].connectionId != infos[j].connectionId
  }

  lemma {:induction false} TracesCanRunUpTo(c: Config, infos: seq<Info>, traces: seq<seq<Action>>, n: nat)
    returns (all: seq<Step>)
    requires ValidConfig(c) && c.capacity > 0 && Runnable(infos, traces) && n <= |infos|
    ensures Live(c, Beginning(c, infos), all)
    ensures
      var s := Now(c, Beginning(c, infos), all);
      && |s.clients| == |infos|
      && (forall i :: 0 <= i < |infos| ==>
            && s.clients[i].info == infos[i]
            && if i < n then s.clients[i].trace == traces[i] else Unstarted(s.clients[i]))
  {
    if n == 0 {
      hide ValidConfig, Created;
      all := [];
    } else {
      all := TracesCanRunUpTo(c, infos, traces, n - 1);
      hide Live, Now, Beginning, Run;
      all := TraceCanRun(c, Beginning(c, infos), all, n - 1, traces[n - 1]);
    }
  }

  /**
   * Any number of sessions can take any actions their machines allow: there is a run of the pipeline from its
   * beginning in which each has taken exactly these, and has come to the state they lead to.
   */
  lemma TracesCanRun(c: Config, infos: seq<Info>, traces: seq<seq<Action>>) returns (all: seq<Step>)
    requires ValidConfig(c) && c.capacity > 0 && Runnable(infos, traces)
    ensures Init(c, Beginning(c, infos)) && Execute(c, Beginning(c, infos), all).Some?
    ensures
      var s := Execute(c, Beginning(c, infos), all).value;
      && |s.clients| == |infos|
      && forall i :: 0 <= i < |infos| ==>
           && s.clients[i].info == infos[i] && s.clients[i].trace == traces[i]
           && Run(infos[i], traces[i]) == Some(Seen(s, i))
  {
    all := TracesCanRunUpTo(c, infos, traces, |infos|);
    LiveInvariant(c, Beginning(c, infos), all);
    hide Execute, Run, ValidConfig, Owned, Stocked, Snapshot, OnDisk, Attributed, Seen;
  }
}

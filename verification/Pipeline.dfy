/**
 * All sessions, the pool of record objects, the bounded queue and the log writer, as one machine that takes the
 * atomic steps of any of them in any order. Objects are shared by reference: a step reads and writes the heap.
 */
module Pipeline {
  import opened Bytes
  import opened Codec
  import opened Framing
  import opened Session
  import opened AuditLog
  import opened Template

  /** The address of a record object. */
  type Id = nat

  /**
   * `local` is the state of the session machine but for the object in hand, which is in the heap at `hand`.
   * `trace` are the actions the session has taken.
   */
  datatype Client = Client(info: Info, local: Local, hand: Option<Id>, trace: seq<Action>)

  /** The writer has an object between taking it off the queue and giving it back to the pool. */
  datatype Writer = Waiting | Writing(id: Id) | Written(id: Id) | Stopped

  datatype State = State(
    clients: seq<Client>,
    heap: map<Id, Record>,
    pool: set<Id>,
    queue: seq<Id>,
    closed: bool,
    writer: Writer,
    log: Log,
    pushed: seq<Record>,      // what the queue has been given, as it was then
    events: seq<LogEvent>)    // what the writer has done to the files

  datatype Step =
    | Session(i: nat, action: Action, id: Id)  // `id` is the object a Get takes
    | Collect(id: Id)                          // the pool may drop an object at any time
    | CloseQueue
    | Receive
    | Encode
    | Recycle
    | Tick(path: Path)
    | Drain
    | Cancel

  datatype Config = Config(capacity: nat, log: Log, path: Path, before: map<Path, seq<Record>>)

  /** What the session machine sees: its own state, with the object in hand as it is in the heap now. */
  function Seen(s: State, i: nat): Local
    requires i < |s.clients|
  {
    var c := s.clients[i];
    c.local.(held := if c.hand.Some? && c.hand.value in s.heap then Some(s.heap[c.hand.value]) else None)
  }

  /** An object the pool makes when it has none. */
  function NewObject(): Record {
    Record(0, 0, [], [], [], [], [], [], seq(MAX_PACKET_SIZE, _ => 0))
  }

  /** The object a Get takes: one of the pool, with what is left in it, or a new one. */
  predicate CanGet(s: State, id: Id, stale: Record) {
    if id in s.pool then id in s.heap && stale == s.heap[id]
    else id !in s.heap && stale == NewObject()
  }

  function WithClient(s: State, i: nat, l: Local, hand: Option<Id>, a: Action): seq<Client>
    requires i < |s.clients|
  {
    s.clients[i := Client(s.clients[i].info, l.(held := None), hand, s.clients[i].trace + [a])]
  }

  function DoSession(c: Config, s: State, i: nat, a: Action, id: Id): Option<State> {
    if i >= |s.clients| then None else
    var hand := s.clients[i].hand;
    match Act(s.clients[i].info, Seen(s, i), a)
    case None => None
    case Some(l) =>
      match a
      case Get(_, stale) =>
        if CanGet(s, id, stale) && l.held.Some? then
          Some(s.(clients := WithClient(s, i, l, Some(id), a), heap := s.heap[id := l.held.value],
                  pool := s.pool - {id}))
        else None
      case Fill(_) =>
        if hand.Some? && l.held.Some? then
          Some(s.(clients := WithClient(s, i, l, hand, a), heap := s.heap[hand.value := l.held.value]))
        else None
      case Forward => Some(s.(clients := WithClient(s, i, l, hand, a)))
      case Push =>
        if hand.Some? && hand.value in s.heap && |s.queue| < c.capacity && !s.closed then
          Some(s.(clients := WithClient(s, i, l, None, a), queue := s.queue + [hand.value],
                  pushed := s.pushed + [s.heap[hand.value]]))
        else None
      case Lose => Some(s.(clients := WithClient(s, i, l, None, a)))
      case Put =>
        if hand.Some? then Some(s.(clients := WithClient(s, i, l, None, a), pool := s.pool + {hand.value})) else None
      case Leave => Some(s.(clients := WithClient(s, i, l, hand, a)))
  }

  /** The state a step leads to, when it is possible. */
  function Do(c: Config, s: State, step: Step): Option<State> {
    match step
    case Session(i, a, id) => DoSession(c, s, i, a, id)
    case Collect(id) => Some(s.(pool := s.pool - {id}))
    case CloseQueue =>
      if forall k :: 0 <= k < |s.clients| ==> s.clients[k].local.phase in {Start, Done}
      then Some(s.(closed := true)) else None
    case Receive =>
      if s.writer == Waiting && s.queue != []
      then Some(s.(writer := Writing(s.queue[0]), queue := s.queue[1..])) else None
    case Encode =>
      if s.writer.Writing? && s.writer.id in s.heap && s.log.Open() then
        var e := Write(s.heap[s.writer.id]);
        Some(s.(writer := Written(s.writer.id), log := Apply(s.log, e), events := s.events + [e]))
      else None
    case Recycle =>
      if s.writer.Written? then Some(s.(writer := Waiting, pool := s.pool + {s.writer.id})) else None
    case Tick(p) =>
      if s.writer == Waiting && s.log.Open() then
        Some(s.(log := Apply(s.log, Rotate(p)), events := s.events + [Rotate(p)]))
      else None
    case Drain =>
      if s.writer == Waiting && s.log.Open() && s.queue == [] && s.closed
      then Some(s.(writer := Stopped, log := AuditLog.Closed(s.log))) else None
    case Cancel =>
      if s.writer == Waiting && s.log.Open() then Some(s.(writer := Stopped, log := AuditLog.Closed(s.log))) else None
  }

  ghost predicate ValidConfig(c: Config) {
    && Holds(c.log, c.before) && c.log.member == None
    && forall p :: p in c.before ==> AllFit(c.before[p])
  }

  /** Any number of sessions, with connection ids of their own, and the first log file open. */
  predicate Init(c: Config, s: State) {
    && (forall i :: 0 <= i < |s.clients| ==>
          s.clients[i] == Client(s.clients[i].info, Initial(), None, []) && s.clients[i].info.Fits())
    && DistinctConnections(s.clients)
    && s.heap == map[] && s.pool == {} && s.queue == [] && !s.closed && s.writer == Waiting
    && s.log == Created(c.log, c.path) && s.pushed == [] && s.events == []
  }

  predicate DistinctConnections(clients: seq<Client>) {
    forall i, j :: 0 <= i < j < |clients| ==> clients[i].info.connectionId != clients[j].info.connectionId
  }

  /** The state the steps lead to, if each is possible where it comes. */
  function Execute(c: Config, s0: State, steps: seq<Step>): Option<State> {
    if steps == [] then Some(s0)
    else
      match Execute(c, s0, steps[..|steps| - 1])
      case None => None
      case Some(s) => Do(c, s, steps[|steps| - 1])
  }

  // Ownership: an object is in at most one of the pool, a session's hand, the queue and the writer's hand

  function WriterHolds(w: Writer): set<Id> {
    match w
    case Writing(id) => {id}
    case Written(id) => {id}
    case _ => {}
  }

  ghost predicate HandsOwned(s: State) {
    && (forall i :: 0 <= i < |s.clients| && s.clients[i].hand.Some? ==>
          var x := s.clients[i].hand.value;
          x in s.heap && x !in s.pool && x !in s.queue && x !in WriterHolds(s.writer))
    && (forall i, j :: 0 <= i < j < |s.clients| && s.clients[i].hand.Some? ==> s.clients[i].hand != s.clients[j].hand)
  }

  ghost predicate QueueOwned(s: State) {
    && (forall k :: 0 <= k < |s.queue| ==>
          s.queue[k] in s.heap && s.queue[k] !in s.pool && s.queue[k] !in WriterHolds(s.writer))
    && (forall j, k :: 0 <= j < k < |s.queue| ==> s.queue[j] != s.queue[k])
  }

  ghost predicate Owned(s: State) {
    && HandsOwned(s)
    && QueueOwned(s)
    && s.pool <= s.heap.Keys
    && WriterHolds(s.writer) <= s.heap.Keys
    && WriterHolds(s.writer) !! s.pool
  }

  lemma SessionKeepsOwned(c: Config, s: State, i: nat, a: Action, id: Id)
    requires Owned(s) && DoSession(c, s, i, a, id).Some?
    ensures Owned(DoSession(c, s, i, a, id).value)
  {
    hide Act, NewObject, Poolable, Stamped;
  }

  lemma WriterKeepsOwned(c: Config, s: State, step: Step)
    requires Owned(s) && !step.Session? && Do(c, s, step).Some?
    ensures Owned(Do(c, s, step).value)
  {
    hide Apply, AuditLog.Closed;
    if step == Receive {
      ReceiveKeepsOwned(s);
      hide Owned;
    } else if step == Recycle {
      RecycleKeepsOwned(s);
      hide Owned;
    }
  }

  lemma ReceiveKeepsOwned(s: State)
    requires Owned(s) && s.writer == Waiting && s.queue != []
    ensures Owned(s.(writer := Writing(s.queue[0]), queue := s.queue[1..]))
  {
    assert forall k :: 0 <= k < |s.queue| - 1 ==> s.queue[1..][k] == s.queue[k + 1];
  }

  lemma RecycleKeepsOwned(s: State)
    requires Owned(s) && s.writer.Written?
    ensures Owned(s.(writer := Waiting, pool := s.pool + {s.writer.id}))
  {
  }

  /** Every object is as the pool needs it, wherever it is. */
  ghost predicate Stocked(s: State) {
    forall x :: x in s.heap ==> Poolable(s.heap[x])
  }

  lemma ActKeepsPoolable(info: Info, l: Local, a: Action)
    requires Act(info, l, a).Some?
    requires l.held.Some? ==> Poolable(l.held.value)
    requires a.Get? ==> Poolable(a.stale)
    ensures Act(info, l, a).value.held.Some? ==> Poolable(Act(info, l, a).value.held.value)
  {
    hide StateName, IsPacket;
  }

  lemma NewObjectIsPoolable()
    ensures Poolable(NewObject())
  {
  }

  lemma StepKeepsStocked(c: Config, s: State, step: Step)
    requires Stocked(s) && Do(c, s, step).Some?
    ensures Stocked(Do(c, s, step).value)
    ensures step.Session? && step.action.Get? ==> Poolable(step.action.stale)
  {
    hide Act, NewObject, Poolable, Apply, AuditLog.Closed;
    NewObjectIsPoolable();
    if step.Session? {
      ActKeepsPoolable(s.clients[step.i].info, Seen(s, step.i), step.action);
    }
  }

  // Isolation: what each session sees is a run of its own, whatever the others, the pool and the writer do

  ghost predicate Isolated(s: State) {
    forall i :: 0 <= i < |s.clients| ==>
      && Run(s.clients[i].info, s.clients[i].trace) == Some(Seen(s, i))
      && PoolableGets(s.clients[i].trace)
  }

  lemma RunOneMore(info: Info, trace: seq<Action>, a: Action)
    ensures Run(info, trace + [a]) ==
            match Run(info, trace) case None => None case Some(l) => Act(info, l, a)
    ensures PoolableGets(trace) && (a.Get? ==> Poolable(a.stale)) ==> PoolableGets(trace + [a])
  {
    assert (trace + [a])[..|trace|] == trace;
  }

  /** A step of one session shows in its own state as the action, and in no other session's state. */
  lemma SessionSteps(c: Config, s: State, i: nat, a: Action, id: Id)
    requires Owned(s) && DoSession(c, s, i, a, id).Some?
    ensures
      var s' := DoSession(c, s, i, a, id).value;
      && |s'.clients| == |s.clients|
      && Some(Seen(s', i)) == Act(s.clients[i].info, Seen(s, i), a)
      && s'.clients[i].info == s.clients[i].info && s'.clients[i].trace == s.clients[i].trace + [a]
      && (forall j :: 0 <= j < |s.clients| && j != i ==> s'.clients[j] == s.clients[j] && Seen(s', j) == Seen(s, j))
  {
    hide NewObject, Stamped, IsPacket;
  }

  lemma SessionKeepsIsolated(c: Config, s: State, i: nat, a: Action, id: Id)
    requires Owned(s) && Isolated(s) && DoSession(c, s, i, a, id).Some? && (a.Get? ==> Poolable(a.stale))
    ensures Isolated(DoSession(c, s, i, a, id).value)
  {
    SessionSteps(c, s, i, a, id);
    RunOneMore(s.clients[i].info, s.clients[i].trace, a);
    hide Act, Poolable, DoSession, PoolableGets, Run, Owned, Seen;
  }

  lemma WriterKeepsIsolated(c: Config, s: State, step: Step)
    requires Isolated(s) && !step.Session? && Do(c, s, step).Some?
    ensures Isolated(Do(c, s, step).value)
  {
    hide Apply, AuditLog.Closed, PoolableGets, Run;
    var s' := Do(c, s, step).value;
    assert s'.clients == s.clients && s'.heap == s.heap;
  }

  // Snapshots: what the writer encodes is what was pushed, although buffers are reused

  function At(heap: map<Id, Record>, id: Id): Record {
    if id in heap then heap[id] else NewObject()
  }

  function Contents(heap: map<Id, Record>, ids: seq<Id>): seq<Record> {
    seq(|ids|, k requires 0 <= k < |ids| => At(heap, ids[k]))
  }

  /** What the writer has encoded, has in hand to encode, and has still to take. */
  function Logging(s: State): seq<Record> {
    Writes(s.events) + (if s.writer.Writing? then [At(s.heap, s.writer.id)] else []) + Contents(s.heap, s.queue)
  }

  ghost predicate Snapshot(s: State) {
    s.pushed == Logging(s)
  }

  /** A session changes no object that is queued or with the writer. */
  lemma SessionLeavesQueued(c: Config, s: State, i: nat, a: Action, id: Id)
    requires Owned(s) && DoSession(c, s, i, a, id).Some?
    ensures
      var s' := DoSession(c, s, i, a, id).value;
      && s'.writer == s.writer && s'.events == s.events && s'.log == s.log
      && (forall x :: x in s.queue || x in WriterHolds(s.writer) ==> At(s'.heap, x) == At(s.heap, x))
      && (if a.Push? then s.clients[i].hand.Some? && s'.queue == s.queue + [s.clients[i].hand.value]
                          && s'.heap == s.heap
                          && s'.pushed == s.pushed + [At(s.heap, s.clients[i].hand.value)]
          else s'.queue == s.queue && s'.pushed == s.pushed)
  {
    hide NewObject, Stamped, IsPacket;
  }

  lemma SessionKeepsSnapshot(c: Config, s: State, i: nat, a: Action, id: Id)
    requires Owned(s) && Snapshot(s) && DoSession(c, s, i, a, id).Some?
    ensures Snapshot(DoSession(c, s, i, a, id).value)
  {
    SessionLeavesQueued(c, s, i, a, id);
    hide Owned, DoSession, At, Writes;
    var s' := DoSession(c, s, i, a, id).value;
    var head := Writes(s.events) + (if s.writer.Writing? then [At(s.heap, s.writer.id)] else []);
    assert Contents(s'.heap, s.queue) == Contents(s.heap, s.queue);
    if a.Push? {
      var x := s.clients[i].hand.value;
      assert Contents(s.heap, s.queue + [x]) == Contents(s.heap, s.queue) + [At(s.heap, x)];
      assert s'.pushed == head + Contents(s.heap, s.queue) + [At(s.heap, x)];
    }
  }

  lemma ContentsOfFirst(heap: map<Id, Record>, ids: seq<Id>)
    requires ids != []
    ensures Contents(heap, ids) == [At(heap, ids[0])] + Contents(heap, ids[1..])
  {
  }

  lemma WritesOneMore(events: seq<LogEvent>, e: LogEvent)
    ensures Writes(events + [e]) == Writes(events) + (match e case Write(r) => [r] case Rotate(_) => [])
  {
    assert (events + [e])[..|events|] == events;
    assert Writes(events) + [] == Writes(events);
  }

  lemma ReceiveKeepsSnapshot(c: Config, s: State)
    requires Snapshot(s) && Do(c, s, Receive).Some?
    ensures Snapshot(Do(c, s, Receive).value)
  {
    ContentsOfFirst(s.heap, s.queue);
    hide Contents, At, Writes;
    var s' := Do(c, s, Receive).value;
    var first, rest := [At(s.heap, s.queue[0])], Contents(s.heap, s'.queue);
    assert Writes(s.events) + [] + (first + rest) == Writes(s.events) + first + rest;
  }

  lemma EventKeepsSnapshot(c: Config, s: State, step: Step)
    requires Snapshot(s) && (step.Encode? || step.Tick?) && Do(c, s, step).Some?
    ensures Snapshot(Do(c, s, step).value)
  {
    var e := if step.Encode? then Write(s.heap[s.writer.id]) else Rotate(step.path);
    WritesOneMore(s.events, e);
    hide Contents, Apply, Writes, Log.Open;
    var w := Writes(s.events + [e]);
    assert w + [] == w;
  }

  lemma WriterKeepsSnapshot(c: Config, s: State, step: Step)
    requires Snapshot(s) && !step.Session? && Do(c, s, step).Some?
    ensures Snapshot(Do(c, s, step).value)
  {
    hide Apply, AuditLog.Closed, Contents, Log.Open, Writes, At;
    match step
    case Receive => ReceiveKeepsSnapshot(c, s);
    case Encode => EventKeepsSnapshot(c, s, step);
    case Tick(_) => EventKeepsSnapshot(c, s, step);
    case _ =>
  }

  // The files

  ghost predicate OnDisk(c: Config, s: State) {
    ValidConfig(c) && Created(c.log, c.path).Open() &&
    var log := Replay(Created(c.log, c.path), s.events);
    if s.writer == Stopped then s.log == AuditLog.Closed(log) else s.log == log
  }

  lemma StepKeepsOnDisk(c: Config, s: State, step: Step)
    requires OnDisk(c, s) && Do(c, s, step).Some?
    ensures OnDisk(c, Do(c, s, step).value)
  {
    hide Act, NewObject, Poolable, Apply, Holds, Created;
    var s' := Do(c, s, step).value;
    if s'.events != s.events {
      assert s'.events[..|s'.events| - 1] == s.events;
    }
  }

  // Whose records the log has

  /** The records of one connection. */
  function Of(connectionId: uint32, log: seq<Record>): seq<Record> {
    if log == [] then []
    else
      var last := log[|log| - 1];
      Of(connectionId, log[..|log| - 1]) + (if last.connectionId == connectionId then [last] else [])
  }

  lemma OfOneMore(connectionId: uint32, log: seq<Record>, r: Record)
    ensures Of(connectionId, log + [r]) == Of(connectionId, log) + (if r.connectionId == connectionId then [r] else [])
  {
    assert (log + [r])[..|log|] == log;
  }

  ghost predicate FromSession(clients: seq<Client>, r: Record) {
    exists i :: 0 <= i < |clients| && clients[i].info.connectionId == r.connectionId
  }

  ghost predicate KnownClients(clients: seq<Client>) {
    DistinctConnections(clients) && forall i :: 0 <= i < |clients| ==> clients[i].info.Fits()
  }

  /** What each session pushed is what the log has of it, and the log has nothing else. */
  ghost predicate Attributed(s: State) {
    && KnownClients(s.clients)
    && AllFit(s.pushed)
    && (forall i :: 0 <= i < |s.clients| ==> Of(s.clients[i].info.connectionId, s.pushed) == Seen(s, i).pushed)
    && (forall k :: 0 <= k < |s.pushed| ==> FromSession(s.clients, s.pushed[k]))
  }

  lemma RecordOfFits(info: Info, kind: Kind, packets: bytes, r: Record)
    requires info.Fits() && IsRecordOf(info, kind, packets, r) && |packets| <= MAX_PACKET_SIZE
    ensures r.Fits() && r.connectionId == info.connectionId
  {
    assert r.Fields() == [info.user, info.db, info.addr, StateName(kind), [], [], packets];
  }

  /** A session pushes what it holds, which is a record of its own. */
  lemma ActPushes(info: Info, l: Local, a: Action)
    requires Inv(info, l) && info.Fits() && Act(info, l, a).Some?
    ensures
      var l' := Act(info, l, a).value;
      if a.Push? then
        && l.held.Some? && l'.pushed == l.pushed + [l.held.value]
        && l.held.value.Fits() && l.held.value.connectionId == info.connectionId
      else l'.pushed == l.pushed
  {
    hide LogShape, LostInv, AllPackets, StateName;
    if a.Push? {
      match l.phase
      case Announcing(kind) => RecordOfFits(info, kind, [], l.held.value);
      case Sent => RecordOfFits(info, Est, l.held.value.packets, l.held.value);
    }
  }

  lemma PushKeepsAttributed(s: State, s': State, i: nat, r: Record)
    requires Attributed(s) && i < |s.clients| == |s'.clients|
    requires forall j :: 0 <= j < |s.clients| ==> s'.clients[j].info == s.clients[j].info
    requires s'.pushed == s.pushed + [r] && r.Fits() && r.connectionId == s.clients[i].info.connectionId
    requires Seen(s', i).pushed == Seen(s, i).pushed + [r]
    requires forall j :: 0 <= j < |s.clients| && j != i ==> Seen(s', j).pushed == Seen(s, j).pushed
    ensures Attributed(s')
  {
    hide Seen;
    forall j | 0 <= j < |s.clients|
      ensures Of(s'.clients[j].info.connectionId, s'.pushed) == Seen(s', j).pushed
    {
      OfOneMore(s.clients[j].info.connectionId, s.pushed, r);
    }
    forall k | 0 <= k < |s'.pushed|
      ensures FromSession(s'.clients, s'.pushed[k])
    {
      if k < |s.pushed| {
        assert FromSession(s.clients, s.pushed[k]);
        var j :| 0 <= j < |s.clients| && s.clients[j].info.connectionId == s.pushed[k].connectionId;
        assert s'.clients[j].info.connectionId == s'.pushed[k].connectionId;
      } else {
        assert s'.clients[i].info.connectionId == s'.pushed[k].connectionId;
      }
    }
  }

  lemma NothingPushedKeepsAttributed(s: State, s': State)
    requires Attributed(s) && |s.clients| == |s'.clients| && s'.pushed == s.pushed
    requires forall j :: 0 <= j < |s.clients| ==>
               s'.clients[j].info == s.clients[j].info && Seen(s', j).pushed == Seen(s, j).pushed
    ensures Attributed(s')
  {
    hide Seen, Of;
    forall k | 0 <= k < |s'.pushed|
      ensures FromSession(s'.clients, s'.pushed[k])
    {
      assert FromSession(s.clients, s.pushed[k]);
      var j :| 0 <= j < |s.clients| && s.clients[j].info.connectionId == s.pushed[k].connectionId;
      assert s'.clients[j].info.connectionId == s'.pushed[k].connectionId;
    }
  }

  lemma StepKeepsAttributed(c: Config, s: State, step: Step)
    requires Owned(s) && Isolated(s) && Attributed(s) && Do(c, s, step).Some?
    ensures Attributed(Do(c, s, step).value)
  {
    var s' := Do(c, s, step).value;
    hide Act, Owned, DoSession, Apply, AuditLog.Closed, Run, PoolableGets, Of, Inv;
    if step.Session? {
      var i := step.i;
      SessionSteps(c, s, i, step.action, step.id);
      SessionLeavesQueued(c, s, i, step.action, step.id);
      RunKeepsInv(s.clients[i].info, s.clients[i].trace);
      ActPushes(s.clients[i].info, Seen(s, i), step.action);
      hide Do;
      if step.action.Push? {
        PushKeepsAttributed(s, s', i, Seen(s, i).held.value);
      } else {
        NothingPushedKeepsAttributed(s, s');
      }
    } else {
      NothingPushedKeepsAttributed(s, s');
    }
  }

  /** Everything that holds in every state that can be reached. */
  ghost predicate Invariant(c: Config, s: State) {
    && Owned(s)
    && Stocked(s)
    && Isolated(s)
    && Snapshot(s)
    && OnDisk(c, s)
    && Attributed(s)
  }

  lemma InitHolds(c: Config, s: State)
    requires ValidConfig(c) && Init(c, s)
    ensures Invariant(c, s)
  {
    hide Created, Holds;
    assert Created(c.log, c.path).Open() by { CreatedOpens(c.log, c.path); }
  }

  lemma CreatedOpens(l: Log, p: Path)
    ensures Created(l, p).Open()
  {
  }

  lemma StepKeepsInvariant(c: Config, s: State, step: Step)
    requires Invariant(c, s) && Do(c, s, step).Some?
    ensures Invariant(c, Do(c, s, step).value)
  {
    hide Owned, Stocked, Isolated, Snapshot, OnDisk, Attributed, Act, Seen, DoSession, Apply, AuditLog.Closed;
    StepKeepsStocked(c, s, step);
    StepKeepsOnDisk(c, s, step);
    StepKeepsAttributed(c, s, step);
    if step.Session? {
      SessionKeepsOwned(c, s, step.i, step.action, step.id);
      SessionKeepsIsolated(c, s, step.i, step.action, step.id);
      SessionKeepsSnapshot(c, s, step.i, step.action, step.id);
    } else {
      WriterKeepsIsolated(c, s, step);
      WriterKeepsOwned(c, s, step);
      WriterKeepsSnapshot(c, s, step);
    }
  }

  lemma {:induction false} RunKeepsInvariant(c: Config, s0: State, steps: seq<Step>)
    requires ValidConfig(c) && Init(c, s0) && Execute(c, s0, steps).Some?
    ensures Invariant(c, Execute(c, s0, steps).value)
  {
    hide Invariant, Do, ValidConfig, Init;
    if steps == [] {
      InitHolds(c, s0);
    } else {
      var n := |steps| - 1;
      RunKeepsInvariant(c, s0, steps[..n]);
      StepKeepsInvariant(c, Execute(c, s0, steps[..n]).value, steps[n]);
    }
  }

  // What the files say

  /** In every reachable state, cancelled or not, the files hold a prefix of what was pushed, with whole records. */
  lemma LogIsPrefix(c: Config, s0: State, steps: seq<Step>)
    requires ValidConfig(c) && Init(c, s0) && Execute(c, s0, steps).Some?
    ensures
      var s := Execute(c, s0, steps).value;
      var segments := Segments(c.path, s.events);
      && AllRecords(segments) <= s.pushed
      && Holds(s.log, RecordsAfter(c.before, segments))
  {
    var s := Execute(c, s0, steps).value;
    RunKeepsInvariant(c, s0, steps);
    SegmentsAreWrites(c.path, s.events);
    hide Execute, Owned, Stocked, Isolated, Attributed, Init, Segments, Writes, Replay, RecordsAfter, Holds;
    RotationKeepsRecords(c.log, c.before, c.path, s.events);
    ClosedHolds(Replay(Created(c.log, c.path), s.events), RecordsAfter(c.before, Segments(c.path, s.events)));
  }

  lemma {:induction false} RecordsInFit(segments: seq<Segment>, p: Path)
    requires AllFit(AllRecords(segments))
    ensures AllFit(RecordsIn(segments, p))
  {
    if segments != [] {
      var n := |segments| - 1;
      var rest, last := AllRecords(segments[..n]), segments[n].records;
      assert forall k :: 0 <= k < |rest| ==> rest[k] == (rest + last)[k];
      assert forall k :: 0 <= k < |last| ==> last[k] == (rest + last)[|rest| + k];
      hide Record.Fits;
      RecordsInFit(segments[..n], p);
    }
  }

  /**
   * Once the writer has stopped, drained or cancelled, every file that opens decodes to exactly its records. None does
   * not open but those without records, by a reader that reports the end of the file along with the header.
   */
  lemma FilesDecode(c: Config, s0: State, steps: seq<Step>, p: Path, how: Reading)
    requires ValidConfig(c) && Init(c, s0) && Execute(c, s0, steps).Some?
    requires Execute(c, s0, steps).value.writer == Stopped && p in Execute(c, s0, steps).value.log.files
    ensures
      var s := Execute(c, s0, steps).value;
      ReadBack(s.log, p, how) == Readable(HeldAfter(c.before, Segments(c.path, s.events), p), how)
  {
    var s := Execute(c, s0, steps).value;
    var segments := Segments(c.path, s.events);
    RunKeepsInvariant(c, s0, steps);
    LogIsPrefix(c, s0, steps);
    hide Execute, Owned, Stocked, Isolated, Init, Segments, Replay, ReadBack, Record.Fits, Snapshot;
    RecordsInFit(segments, p);
    FilesReadBack(c.log, c.before, c.path, s.events, p, how);
  }

  /**
   * End to end: when the writer has drained the queue, the files in rotation order hold exactly what was pushed, and
   * of each session that finished without a lost push its whole log: "connect", one "est" record per forwarded packet
   * in forwarding order with the packet's bytes, and "disconnect".
   */
  lemma AuditFidelity(c: Config, s0: State, steps: seq<Step>)
    requires ValidConfig(c) && Init(c, s0) && Execute(c, s0, steps).Some?
    requires var s := Execute(c, s0, steps).value; s.writer == Stopped && s.queue == []
    ensures
      var s := Execute(c, s0, steps).value;
      var log := AllRecords(Segments(c.path, s.events));
      && log == s.pushed
      && (forall k :: 0 <= k < |log| ==> FromSession(s.clients, log[k]))
      && (forall i :: 0 <= i < |s.clients| && s.clients[i].local.phase == Done && s.clients[i].local.lost == {} ==>
            CompleteLog(s.clients[i].info, s.clients[i].local.forwarded, Of(s.clients[i].info.connectionId, log)) &&
            SpelledLog(s.clients[i].info, s.clients[i].local.forwarded, Of(s.clients[i].info.connectionId, log)))
  {
    var s := Execute(c, s0, steps).value;
    RunKeepsInvariant(c, s0, steps);
    SegmentsAreWrites(c.path, s.events);
    hide Execute, Owned, Stocked, Init, Segments, Of, CompleteLog, SpelledLog, Inv, Run, Writes, AllRecords, OnDisk;
    assert s.pushed == Writes(s.events) + [] + [] == Writes(s.events);
    forall i | 0 <= i < |s.clients| && s.clients[i].local.phase == Done && s.clients[i].local.lost == {}
      ensures CompleteLog(s.clients[i].info, s.clients[i].local.forwarded,
                          Of(s.clients[i].info.connectionId, s.pushed))
      ensures SpelledLog(s.clients[i].info, s.clients[i].local.forwarded,
                         Of(s.clients[i].info.connectionId, s.pushed))
    {
      RunKeepsInv(s.clients[i].info, s.clients[i].trace);
      FinishedSessionLog(s.clients[i].info, Seen(s, i));
      CompleteLogIsSpelled(s.clients[i].info, s.clients[i].local.forwarded, Seen(s, i).pushed);
    }
  }

  /** As long as no rotation comes back to a file it left, that log is what reading file after file gives. */
  lemma AuditFidelityByFile(c: Config, s0: State, steps: seq<Step>)
    requires ValidConfig(c) && Init(c, s0) && Execute(c, s0, steps).Some?
    requires var s := Execute(c, s0, steps).value; s.writer == Stopped && s.queue == []
    requires Grouped(Segments(c.path, Execute(c, s0, steps).value.events))
    ensures
      var s := Execute(c, s0, steps).value;
      var segments := Segments(c.path, s.events);
      RecordsByFile(segments, Names(segments)) == s.pushed
  {
    AuditFidelity(c, s0, steps);
    GroupedFilesAreLog(Segments(c.path, Execute(c, s0, steps).value.events));
  }

  lemma FilesAre(c: Config, s0: State, steps: seq<Step>)
    requires ValidConfig(c) && Init(c, s0) && Execute(c, s0, steps).Some?
    ensures var s := Execute(c, s0, steps).value;
            s.log.files.Keys == c.before.Keys + PathsOf(Segments(c.path, s.events))
  {
    LogIsPrefix(c, s0, steps);
    hide Execute, Init, ValidConfig, Segments;
  }

  lemma NewFileDecodes(c: Config, s0: State, steps: seq<Step>, p: Path, how: Reading)
    requires ValidConfig(c) && Init(c, s0) && Execute(c, s0, steps).Some?
    requires Execute(c, s0, steps).value.writer == Stopped
    requires p in Execute(c, s0, steps).value.log.files && p !in c.before
    ensures
      var s := Execute(c, s0, steps).value;
      ReadBack(s.log, p, how) == Readable(RecordsIn(Segments(c.path, s.events), p), how)
  {
    FilesDecode(c, s0, steps, p, how);
    hide Execute, Init, ValidConfig, Segments, ReadBack, RecordsIn;
    var records := RecordsIn(Segments(c.path, Execute(c, s0, steps).value.events), p);
    assert [] + records == records;
  }

  /**
   * With the hourly template and ticks that do not go back, into files that were not there before: the new files,
   * read one after the other in the order of their names, give back exactly what was pushed. The files that do not
   * open are the ones of hours without records that are read eagerly.
   */
  lemma HourlyAuditFidelity(c: Config, s0: State, steps: seq<Step>, pre: string, suf: string, times: seq<Time>,
                            reading: Path -> Reading)
    requires ValidConfig(c) && Init(c, s0) && Execute(c, s0, steps).Some?
    requires var s := Execute(c, s0, steps).value; s.writer == Stopped && s.queue == []
    requires
      var segments := Segments(c.path, Execute(c, s0, steps).value.events);
      && HourlySegments(pre, suf, times, segments)
      && forall p :: p in PathsOf(segments) ==> p !in c.before && |VERSION| <= reading(p).chunk
    ensures
      var s := Execute(c, s0, steps).value;
      var names := Names(Segments(c.path, s.events));
      && (forall p :: p in s.log.files && p !in c.before <==> p in names)
      && SortedNames(names)
      && ReadInOrder(s.log, names, reading) == s.pushed
      && forall p :: p in names ==>
           p in s.log.files &&
           (ReadBack(s.log, p, reading(p)) == None <==>
              reading(p).eager && RecordsIn(Segments(c.path, s.events), p) == [])
  {
    var s := Execute(c, s0, steps).value;
    var segments := Segments(c.path, s.events);
    HourlySegmentsAreGrouped(pre, suf, times, segments);
    HourlyFilesSortByName(pre, suf, times, segments);
    AuditFidelityByFile(c, s0, steps);
    NamesCover(segments);
    FilesAre(c, s0, steps);
    hide Execute, Init, ValidConfig, Segments, HourlySegments, Grouped, Names, SortedNames, ReadBack, RecordsIn;
    forall p | p in Names(segments)
      ensures p in s.log.files
      ensures ReadBack(s.log, p, reading(p)) == Readable(RecordsIn(segments, p), reading(p))
    {
      NewFileDecodes(c, s0, steps, p, reading(p));
    }
    ReadInOrderIs(s.log, segments, Names(segments), reading);
  }

  /** Midway, cancelled or not: the log of each session is its own run's, missing at most the record of one push. */
  lemma SessionsAreIndependent(c: Config, s0: State, steps: seq<Step>, i: nat)
    requires ValidConfig(c) && Init(c, s0) && Execute(c, s0, steps).Some?
    requires i < |Execute(c, s0, steps).value.clients|
    ensures
      var s := Execute(c, s0, steps).value;
      var l := Seen(s, i);
      var log := Of(s.clients[i].info.connectionId, s.pushed);
      && Run(s.clients[i].info, s.clients[i].trace) == Some(l)
      && log == l.pushed && LogShape(s.clients[i].info, l)
      && |Ests(log)| <= |l.forwarded| <= |Ests(log)| + 1 && Ests(log) == l.forwarded[..|Ests(log)|]
  {
    var s := Execute(c, s0, steps).value;
    RunKeepsInvariant(c, s0, steps);
    hide Execute, Owned, Stocked, Init, Of, OnDisk, Snapshot, Ests, LogShape, LostInv, HeldInv, AllPackets;
    RunKeepsInv(s.clients[i].info, s.clients[i].trace);
    EstRecordsMatchForwarded(s.clients[i].info, Seen(s, i));
  }

  // The writer is never stuck

  lemma ExecuteMore(c: Config, s0: State, steps: seq<Step>, step: Step)
    ensures Execute(c, s0, steps + [step]) ==
            match Execute(c, s0, steps) case None => None case Some(s) => Do(c, s, step)
  {
    assert (steps + [step])[..|steps|] == steps;
  }

  /** What the writer does next when nothing is cancelled. */
  function NextStep(s: State): Step {
    match s.writer
    case Writing(_) => Encode
    case Written(_) => Recycle
    case _ => if s.queue != [] then Receive else if !s.closed then CloseQueue else Drain
  }

  function WorkLeft(s: State): nat {
    if s.writer == Stopped then 0
    else
      var hand := match s.writer case Writing(_) => 2 case Written(_) => 1 case _ => 0;
      2 + 3 * |s.queue| + (if s.closed then 0 else 1) + hand
  }

  lemma NextStepWorks(c: Config, s: State)
    requires Invariant(c, s) && s.writer != Stopped
    requires forall i :: 0 <= i < |s.clients| ==> s.clients[i].local.phase == Done
    ensures Do(c, s, NextStep(s)).Some?
    ensures
      var s' := Do(c, s, NextStep(s)).value;
      && WorkLeft(s') < WorkLeft(s) && s'.clients == s.clients && s'.pushed == s.pushed
      && (s'.writer == Stopped ==> s'.queue == [])
  {
    hide Stocked, Isolated, Attributed, Apply, Created, Holds;
  }

  /** Whenever all sessions are done, the writer alone can still finish, and then everything pushed is in the files. */
  lemma {:induction false} WriterCanDrain(c: Config, s0: State, steps: seq<Step>) returns (all: seq<Step>)
    requires ValidConfig(c) && Init(c, s0) && Execute(c, s0, steps).Some?
    requires
      var s := Execute(c, s0, steps).value;
      && s.writer != Stopped
      && forall i :: 0 <= i < |s.clients| ==> s.clients[i].local.phase == Done
    ensures steps <= all && Execute(c, s0, all).Some?
    ensures
      var s, s' := Execute(c, s0, steps).value, Execute(c, s0, all).value;
      && s'.writer == Stopped && s'.queue == [] && s'.clients == s.clients && s'.pushed == s.pushed
    decreases WorkLeft(Execute(c, s0, steps).value)
  {
    var s := Execute(c, s0, steps).value;
    RunKeepsInvariant(c, s0, steps);
    hide Execute, Invariant, Do, Init, ValidConfig, WorkLeft, NextStep;
    NextStepWorks(c, s);
    all := steps + [NextStep(s)];
    ExecuteMore(c, s0, steps, NextStep(s));
    if Do(c, s, NextStep(s)).value.writer != Stopped {
      all := WriterCanDrain(c, s0, all);
    }
  }
}

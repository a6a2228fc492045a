/**
 * What one session's worker does to the record objects it holds, as a machine of atomic actions. The worker is proved
 * to run it from start to end, and the pipeline interleaves many copies of it.
 */
module Session {
  import opened Bytes
  import opened Codec
  import opened Framing

  /** What is constant in every record of one session. */
  datatype Info = Info(user: bytes, db: bytes, addr: bytes, connectionId: uint32) {
    predicate Fits() {
      |user| < 0x1_0000_0000 && |db| < 0x1_0000_0000 && |addr| < 0x1_0000_0000
    }
  }

  datatype Kind = Connect | Est | Disconnect

  function StateName(kind: Kind): bytes {
    match kind
    case Connect => Ascii("connect")
    case Est => Ascii("est")
    case Disconnect => Ascii("disconnect")
  }

  /** Every field the proxy means to log, with nothing left over from an earlier use of the object. */
  function RecordOf(info: Info, kind: Kind, datetime: int64, packets: bytes): Record {
    Record(datetime, info.connectionId, info.user, info.db, info.addr, StateName(kind), [], [], packets)
  }

  predicate IsRecordOf(info: Info, kind: Kind, packets: bytes, r: Record) {
    r == RecordOf(info, kind, r.datetime, packets)
  }

  /** The fields set on an object taken from the pool; those of its last use that are not set stay. */
  function Stamped(info: Info, kind: Kind, datetime: int64, stale: Record): Record {
    stale.(datetime := datetime, user := info.user, addr := info.addr, db := info.db,
           connectionId := info.connectionId, state := StateName(kind),
           packets := if kind == Est then stale.packets else [])
  }

  /** What holds of an object in the pool: nothing in the fields no one sets, and no more bytes than its capacity. */
  predicate Poolable(r: Record) {
    r.err == [] && r.cmd == [] && |r.packets| <= MAX_PACKET_SIZE
  }

  datatype Phase = Start | Announcing(kind: Kind) | Idle | Holding | Sent | Stopping | Done

  /** `lost` are the kinds of records whose push lost to cancellation. */
  datatype Local = Local(phase: Phase, held: Option<Record>, forwarded: seq<bytes>, pushed: seq<Record>,
                         lost: set<Kind>)

  datatype Action =
    | Get(datetime: int64, stale: Record)  // take an object from the pool and stamp it
    | Fill(packets: bytes)                 // resize its buffer and read into it
    | Forward                              // the target has accepted all of it
    | Push                                 // give the object to the log queue
    | Lose                                 // cancelled before the queue took a state record
    | Put                                  // give the object back to the pool
    | Leave                                // cancelled with no object in hand

  function Initial(): Local {
    Local(Start, None, [], [], {})
  }

  function AfterState(kind: Kind): Phase {
    if kind == Connect then Idle else Done
  }

  function Act(info: Info, l: Local, a: Action): Option<Local> {
    match (a, l.phase, l.held)
    case (Get(t, stale), Start, None) =>
      Some(l.(phase := Announcing(Connect), held := Some(Stamped(info, Connect, t, stale))))
    case (Get(t, stale), Idle, None) => Some(l.(phase := Holding, held := Some(Stamped(info, Est, t, stale))))
    case (Get(t, stale), Stopping, None) =>
      Some(l.(phase := Announcing(Disconnect), held := Some(Stamped(info, Disconnect, t, stale))))
    case (Fill(b), Holding, Some(r)) =>
      if |b| <= MAX_PACKET_SIZE then Some(l.(held := Some(r.(packets := b)))) else None
    case (Forward, Holding, Some(r)) =>
      if IsPacket(r.packets) then Some(l.(phase := Sent, forwarded := l.forwarded + [r.packets])) else None
    case (Push, Announcing(kind), Some(r)) =>
      Some(l.(phase := AfterState(kind), held := None, pushed := l.pushed + [r]))
    case (Push, Sent, Some(r)) => Some(l.(phase := Idle, held := None, pushed := l.pushed + [r]))
    case (Lose, Announcing(kind), Some(r)) =>
      Some(l.(phase := AfterState(kind), held := None, lost := l.lost + {kind}))
    case (Put, Holding, Some(r)) => Some(l.(phase := Stopping, held := None))
    case (Put, Sent, Some(r)) => Some(l.(phase := Stopping, held := None, lost := l.lost + {Est}))
    case (Leave, Idle, None) => Some(l.(phase := Stopping))
    case _ => None
  }

  /** The state a list of actions leads to, if each is possible where it comes. */
  function Run(info: Info, trace: seq<Action>): Option<Local> {
    if trace == [] then Some(Initial())
    else
      match Run(info, trace[..|trace| - 1])
      case None => None
      case Some(l) => Act(info, l, trace[|trace| - 1])
  }

  // The shape of a session's log

  predicate HasConnect(l: Local) {
    l.phase != Start && l.phase != Announcing(Connect) && Connect !in l.lost
  }

  predicate HasDisconnect(l: Local) {
    l.phase == Done && Disconnect !in l.lost
  }

  /** The forwarded packets that have been pushed: all of them, but for a last one not pushed yet or lost. */
  function Logged(l: Local): nat {
    if (l.phase == Sent || Est in l.lost) && l.forwarded != [] then |l.forwarded| - 1 else |l.forwarded|
  }

  /** From `start` on, `log` has an "est" record for each of the packets, in order. */
  ghost predicate EstRecords(info: Info, packets: seq<bytes>, log: seq<Record>, start: nat) {
    && start + |packets| <= |log|
    && forall i :: 0 <= i < |packets| ==> IsRecordOf(info, Est, packets[i], log[start + i])
  }

  function First(l: Local): nat {
    if HasConnect(l) then 1 else 0
  }

  /** One record of each kind that was not lost, around one "est" record per packet in forwarding order. */
  ghost predicate LogShape(info: Info, l: Local) {
    var last := First(l) + Logged(l);
    && |l.pushed| == last + (if HasDisconnect(l) then 1 else 0)
    && (HasConnect(l) ==> IsRecordOf(info, Connect, [], l.pushed[0]))
    && EstRecords(info, l.forwarded[..Logged(l)], l.pushed, First(l))
    && (HasDisconnect(l) ==> IsRecordOf(info, Disconnect, [], l.pushed[last]))
  }

  ghost predicate HeldInv(info: Info, l: Local) {
    match l.phase
    case Announcing(kind) => l.held.Some? && IsRecordOf(info, kind, [], l.held.value)
    case Holding =>
      && l.held.Some? && IsRecordOf(info, Est, l.held.value.packets, l.held.value)
      && |l.held.value.packets| <= MAX_PACKET_SIZE
    case Sent =>
      && l.held.Some? && l.forwarded != []
      && IsRecordOf(info, Est, l.forwarded[|l.forwarded| - 1], l.held.value)
      && |l.held.value.packets| <= MAX_PACKET_SIZE
    case _ => l.held == None
  }

  /** The worker stops after a lost packet, and starts with nothing lost. */
  ghost predicate LostInv(l: Local) {
    && (l.phase == Start || l.phase == Announcing(Connect) ==> l.forwarded == [] && l.lost == {})
    && (l.phase == Sent ==> l.forwarded != [])
    && l.phase != Announcing(Est)
    && (Est in l.lost ==>
          && (l.phase == Stopping || l.phase == Announcing(Disconnect) || l.phase == Done)
          && l.forwarded != [])
    && (Disconnect in l.lost ==> l.phase == Done)
  }

  ghost predicate AllPackets(ps: seq<bytes>) {
    forall i :: 0 <= i < |ps| ==> IsPacket(ps[i])
  }

  ghost predicate Inv(info: Info, l: Local) {
    && HeldInv(info, l)
    && LogShape(info, l)
    && AllPackets(l.forwarded)
    && LostInv(l)
  }

  lemma StateNamesDiffer(a: Kind, b: Kind)
    requires a != b
    ensures StateName(a) != StateName(b)
  {
    assert |StateName(a)| != |StateName(b)|;
  }

  lemma ActKeepsShape(info: Info, l: Local, a: Action)
    requires Inv(info, l) && Act(info, l, a).Some?
    ensures LogShape(info, Act(info, l, a).value)
  {
    hide IsPacket, Ascii, StateName;
    var l' := Act(info, l, a).value;
    if a == Forward {
      assert l'.forwarded[..Logged(l')] == l.forwarded == l.forwarded[..Logged(l)];
    } else if a == Push && l.phase == Sent {
      assert l'.forwarded[..Logged(l')] == l.forwarded[..Logged(l)] + [l.forwarded[|l.forwarded| - 1]];
    } else {
      assert Logged(l') == Logged(l) && l'.forwarded == l.forwarded;
    }
  }

  lemma ActKeepsHeld(info: Info, l: Local, a: Action)
    requires HeldInv(info, l) && Act(info, l, a).Some?
    requires a.Get? ==> Poolable(a.stale)
    ensures HeldInv(info, Act(info, l, a).value)
  {
    hide IsPacket, StateName;
  }

  lemma ActKeepsInv(info: Info, l: Local, a: Action)
    requires Inv(info, l) && Act(info, l, a).Some?
    requires a.Get? ==> Poolable(a.stale)
    ensures Inv(info, Act(info, l, a).value)
  {
    ActKeepsShape(info, l, a);
    ActKeepsHeld(info, l, a);
    ActKeepsLost(info, l, a);
    hide IsPacket, LogShape, HeldInv, Stamped, Poolable, LostInv;
    var l' := Act(info, l, a).value;
    if a == Forward {
      assert l'.forwarded == l.forwarded + [l.held.value.packets];
    } else {
      assert l'.forwarded == l.forwarded;
    }
  }

  lemma ActKeepsLost(info: Info, l: Local, a: Action)
    requires LostInv(l) && Act(info, l, a).Some?
    ensures LostInv(Act(info, l, a).value)
  {
    hide IsPacket, StateName, Stamped;
  }

  ghost predicate PoolableGets(trace: seq<Action>) {
    forall a :: a in trace && a.Get? ==> Poolable(a.stale)
  }

  lemma {:induction false} RunKeepsInv(info: Info, trace: seq<Action>)
    requires Run(info, trace).Some? && PoolableGets(trace)
    ensures Inv(info, Run(info, trace).value)
  {
    if trace == [] {
    } else {
      var n := |trace| - 1;
      RunKeepsInv(info, trace[..n]);
      ActKeepsInv(info, Run(info, trace[..n]).value, trace[n]);
    }
  }

  predicate IsEst(r: Record) {
    r.state == StateName(Est)
  }

  /** The packets of the records with the state "est". */
  function Ests(log: seq<Record>): seq<bytes> {
    if log == [] then [] else (if IsEst(log[0]) then [log[0].packets] else []) + Ests(log[1..])
  }

  lemma {:induction false} EstsAppend(a: seq<Record>, b: seq<Record>)
    ensures Ests(a + b) == Ests(a) + Ests(b)
  {
    hide IsEst;
    if a == [] {
      assert a + b == b;
    } else {
      EstsAppend(a[1..], b);
      var e := if IsEst(a[0]) then [a[0].packets] else [];
      assert (a + b)[1..] == a[1..] + b;
      assert e + (Ests(a[1..]) + Ests(b)) == (e + Ests(a[1..])) + Ests(b);
    }
  }

  lemma NoEsts(info: Info, kind: Kind, log: seq<Record>)
    requires kind != Est && |log| <= 1 && (log != [] ==> IsRecordOf(info, kind, [], log[0]))
    ensures Ests(log) == []
  {
    if log != [] {
      StateNamesDiffer(kind, Est);
      assert log[1..] == [];
    }
  }

  lemma {:induction false} EstsOfEstRecords(info: Info, packets: seq<bytes>, log: seq<Record>)
    requires |log| == |packets| && EstRecords(info, packets, log, 0)
    ensures Ests(log) == packets
  {
    hide StateName;
    if log != [] {
      assert IsRecordOf(info, Est, packets[0], log[0]);
      forall i | 0 <= i < |packets| - 1
        ensures IsRecordOf(info, Est, packets[1..][i], log[1..][i])
      {
        assert IsRecordOf(info, Est, packets[i + 1], log[i + 1]);
      }
      EstsOfEstRecords(info, packets[1..], log[1..]);
    }
  }

  lemma EstsBetween(info: Info, packets: seq<bytes>, log: seq<Record>, start: nat)
    requires EstRecords(info, packets, log, start)
    ensures Ests(log[start..start + |packets|]) == packets
  {
    hide IsRecordOf, Ests;
    var middle := log[start..start + |packets|];
    forall i | 0 <= i < |packets|
      ensures IsRecordOf(info, Est, packets[i], middle[0 + i])
    {
      assert middle[i] == log[start + i];
    }
    EstsOfEstRecords(info, packets, middle);
  }

  lemma Cut(log: seq<Record>, a: nat, b: nat)
    requires a <= b <= |log|
    ensures log == log[..a] + (log[a..b] + log[b..])
  {
  }

  lemma EstsOfShape(info: Info, l: Local)
    requires LogShape(info, l)
    ensures Ests(l.pushed) == l.forwarded[..Logged(l)]
  {
    var first, last := First(l), First(l) + Logged(l);
    var head, middle, tail := l.pushed[..first], l.pushed[first..last], l.pushed[last..];
    NoEsts(info, Connect, head);
    NoEsts(info, Disconnect, tail);
    Cut(l.pushed, first, last);
    EstsBetween(info, l.forwarded[..Logged(l)], l.pushed, first);
    hide LogShape, Ests, IsRecordOf, EstRecords;
    EstsAppend(head, middle + tail);
    EstsAppend(middle, tail);
    assert [] + (l.forwarded[..Logged(l)] + []) == l.forwarded[..Logged(l)];
  }

  /** The "est" records pushed are the forwarded packets in order; only the last can be missing, and only if it lost. */
  lemma EstRecordsMatchForwarded(info: Info, l: Local)
    requires Inv(info, l)
    ensures
      var ests := Ests(l.pushed);
      && |ests| <= |l.forwarded| <= |ests| + 1
      && ests == l.forwarded[..|ests|]
      && (|ests| < |l.forwarded| <==> l.phase == Sent || Est in l.lost)
  {
    EstsOfShape(info, l);
    hide LogShape, HeldInv, Ests, AllPackets;
  }

  /** The whole log of a session that lost nothing. */
  ghost predicate CompleteLog(info: Info, forwarded: seq<bytes>, log: seq<Record>) {
    && |log| == |forwarded| + 2
    && IsRecordOf(info, Connect, [], log[0])
    && EstRecords(info, forwarded, log, 1)
    && IsRecordOf(info, Disconnect, [], log[|log| - 1])
  }

  lemma FinishedSessionLog(info: Info, l: Local)
    requires Inv(info, l) && l.phase == Done && l.lost == {}
    ensures CompleteLog(info, l.forwarded, l.pushed)
  {
    assert l.forwarded[..Logged(l)] == l.forwarded;
  }

  // The same log, byte for byte

  /** What every record of a session says: who it is, and nothing in the fields that are not set. */
  predicate OfSession(info: Info, r: Record) {
    && r.user == info.user && r.db == info.db && r.addr == info.addr && r.connectionId == info.connectionId
    && r.err == [] && r.cmd == []
  }

  /** "connect" with no packet, "est" with each packet, and "disconnect" with no packet. */
  predicate SpelledLog(info: Info, forwarded: seq<bytes>, log: seq<Record>) {
    && |log| == |forwarded| + 2
    && (forall i :: 0 <= i < |log| ==> OfSession(info, log[i]))
    && log[0].state == [99, 111, 110, 110, 101, 99, 116] && log[0].packets == []
    && (forall i :: 0 <= i < |forwarded| ==> log[i + 1].state == [101, 115, 116] && log[i + 1].packets == forwarded[i])
    && log[|log| - 1].state == [100, 105, 115, 99, 111, 110, 110, 101, 99, 116] && log[|log| - 1].packets == []
  }

  lemma StateBytes()
    ensures StateName(Connect) == [99, 111, 110, 110, 101, 99, 116]
    ensures StateName(Est) == [101, 115, 116]
    ensures StateName(Disconnect) == [100, 105, 115, 99, 111, 110, 110, 101, 99, 116]
  {
    assert |"connect"| == 7 && |"est"| == 3 && |"disconnect"| == 10;
  }

  lemma CompleteLogIsSpelled(info: Info, forwarded: seq<bytes>, log: seq<Record>)
    requires CompleteLog(info, forwarded, log)
    ensures SpelledLog(info, forwarded, log)
  {
    StateBytes();
    hide StateName;
    forall i | 0 <= i < |log|
      ensures OfSession(info, log[i])
      ensures 0 < i <= |forwarded| ==> log[i].state == [101, 115, 116] && log[i].packets == forwarded[i - 1]
    {
      if 0 < i <= |forwarded| {
        assert IsRecordOf(info, Est, forwarded[i - 1], log[1 + (i - 1)]);
      }
    }
  }

  // Times

  /** When the last object was taken. */
  function LastTaken(trace: seq<Action>): int64 {
    if trace == [] then 0
    else
      var n := |trace| - 1;
      if trace[n].Get? then trace[n].datetime else LastTaken(trace[..n])
  }

  /** When the objects that have been pushed were taken. */
  function PushedTimes(trace: seq<Action>): seq<int64> {
    if trace == [] then []
    else
      var n := |trace| - 1;
      PushedTimes(trace[..n]) + if trace[n].Push? then [LastTaken(trace[..n])] else []
  }

  /** A record has the time at which its object was taken, which for a packet is before it is read. */
  lemma {:induction false} RecordTimes(info: Info, trace: seq<Action>)
    requires Run(info, trace).Some?
    ensures
      var l := Run(info, trace).value;
      && (l.held.Some? ==> l.held.value.datetime == LastTaken(trace))
      && |l.pushed| == |PushedTimes(trace)|
      && forall i :: 0 <= i < |l.pushed| ==> l.pushed[i].datetime == PushedTimes(trace)[i]
  {
    hide StateName, IsPacket;
    if trace != [] {
      RecordTimes(info, trace[..|trace| - 1]);
    }
  }
}

/** Connections whose reads and writes are refused once a context is done, and the relay from server to client. */
module TimeoutNet {
  import opened Bytes

  /**
   * The context of the worker and its child, the context of one session's connections. Both can only become done,
   * between any two steps, and the child is done whenever its parent is. A context that can pass a deadline reports
   * an error that counts as a timeout. An uncancelled context never becomes done.
   */
  class Context {
    const hasDeadline: bool
    const uncancelled: bool
    var parentDone: bool
    var childDone: bool

    constructor (hasDeadline: bool, uncancelled: bool)
      ensures Valid() && !parentDone && !childDone
      ensures this.hasDeadline == hasDeadline && this.uncancelled == uncancelled
    {
      this.hasDeadline, this.uncancelled := hasDeadline, uncancelled;
      parentDone, childDone := false, false;
    }

    ghost predicate Valid()
      reads this
    {
      (parentDone ==> childDone) && (uncancelled ==> !childDone)
    }

    /** Time passes, and either context may have become done. */
    method Pass()
      requires Valid()
      modifies this
      ensures Valid()
      ensures old(parentDone) ==> parentDone
      ensures old(childDone) ==> childDone
    {
      var child: bool, parent: bool := *, *;
      if !uncancelled {
        childDone := childDone || child || parent;
        parentDone := parentDone || parent;
      }
    }

    method ParentDone() returns (done: bool)
      requires Valid()
      modifies this
      ensures Valid() && done == parentDone
      ensures old(parentDone) ==> parentDone
      ensures old(childDone) ==> childDone
    {
      Pass();
      done := parentDone;
    }
  }

  /** How a network read ends: with no error, a timeout, io.EOF, an error wrapping io.EOF, or any other error. */
  datatype Status = Live | TimedOut | Closed | ClosedWrapped | Failed {
    predicate Terminal() { Closed? || ClosedWrapped? || Failed? }
  }

  datatype NetError = Net(status: Status) | Canceled | DeadlineExceeded {
    predicate IsTimeout() { this == Net(TimedOut) || DeadlineExceeded? }
  }

  /** Bytes that arrive together, and what a read that takes the last of them reports. */
  datatype Arrival = Arrival(data: bytes, status: Status)

  /** Every byte up to the end of the connection; with nothing more to come the peer has closed. */
  function Stream(a: seq<Arrival>): bytes {
    if a == [] then []
    else if a[0].status.Terminal() then a[0].data
    else a[0].data + Stream(a[1..])
  }

  function Ending(a: seq<Arrival>): (s: Status)
    ensures s.Terminal()
  {
    if a == [] then Closed else if a[0].status.Terminal() then a[0].status else Ending(a[1..])
  }

  /** The read that reports the end of the connection also returns data. */
  predicate DataWithEnd(a: seq<Arrival>) {
    a != [] && if a[0].status.Terminal() then a[0].data != [] else DataWithEnd(a[1..])
  }

  lemma {:induction false} DataWithEndIsData(a: seq<Arrival>)
    ensures DataWithEnd(a) ==> Stream(a) != []
  {
    if a != [] && !a[0].status.Terminal() {
      DataWithEndIsData(a[1..]);
    }
  }

  function Size(a: seq<Arrival>): nat {
    if a == [] then 0 else 1 + |a[0].data| + Size(a[1..])
  }

  datatype Delivery = Delivery(data: bytes, status: Status, rest: seq<Arrival>)

  /** One read of at most `room` bytes. A read into an empty buffer returns at once. */
  function Deliver(a: seq<Arrival>, room: nat): (d: Delivery)
    ensures |d.data| <= room
    ensures room == 0 ==> d == Delivery([], Live, a)
  {
    if room == 0 then Delivery([], Live, a)
    else if a == [] then Delivery([], Closed, [])
    else if |a[0].data| > room then
      Delivery(a[0].data[..room], Live, [Arrival(a[0].data[room..], a[0].status)] + a[1..])
    else Delivery(a[0].data, a[0].status, a[1..])
  }

  lemma DeliverKeepsStream(a: seq<Arrival>, room: nat)
    requires room > 0
    ensures
      var d := Deliver(a, room);
      && Stream(a) == d.data + (if d.status.Terminal() then [] else Stream(d.rest))
      && Ending(a) == (if d.status.Terminal() then d.status else Ending(d.rest))
      && DataWithEnd(a) == (if d.status.Terminal() then d.data != [] else DataWithEnd(d.rest))
      && (d.status.Terminal() || Size(d.rest) < Size(a))
  {
    if a != [] && |a[0].data| > room {
      var d := Deliver(a, room);
      assert d.rest[1..] == a[1..];
      var tail := if a[0].status.Terminal() then [] else Stream(a[1..]);
      assert Stream(a) == a[0].data + tail;
      assert Stream(d.rest) == a[0].data[room..] + tail;
      assert a[0].data == d.data + a[0].data[room..];
    }
  }

  /** A connection; deadlines can be set on a reliable one. */
  class Conn {
    const reliable: bool
    var arrivals: seq<Arrival>
    /** A deadline could not be set. */
    ghost var faulted: bool

    constructor (arrivals: seq<Arrival>, reliable: bool)
      ensures this.arrivals == arrivals && this.reliable == reliable && !faulted
    {
      this.arrivals, this.reliable := arrivals, reliable;
      faulted := false;
    }

    method SetReadDeadline() returns (ok: bool)
      modifies this`faulted
      ensures faulted == (old(faulted) || !ok) && (reliable ==> ok)
    {
      ok := *;
      ok := ok || reliable;
      faulted := faulted || !ok;
    }

    method Read(p: array<byte>, lo: nat, hi: nat) returns (n: nat, status: Status)
      requires lo <= hi <= p.Length
      modifies this`arrivals, p
      ensures
        var d := Deliver(old(arrivals), hi - lo);
        && n == |d.data| && status == d.status && arrivals == d.rest
        && (forall i :: lo <= i < lo + n ==> p[i] == d.data[i - lo])
      ensures forall i :: 0 <= i < lo || lo + n <= i < p.Length ==> p[i] == old(p[i])
    {
      var d := Deliver(arrivals, hi - lo);
      n, status, arrivals := |d.data|, d.status, d.rest;
      forall i | 0 <= i < n { p[lo + i] := d.data[i]; }
    }
  }

  class TimeoutReader {
    const conn: Conn
    const ctx: Context

    constructor (conn: Conn, ctx: Context)
      ensures this.conn == conn && this.ctx == ctx
    {
      this.conn, this.ctx := conn, ctx;
    }

    /** Reads the connection unless the child context is done, and then touches nothing. */
    method Read(p: array<byte>, lo: nat, hi: nat) returns (n: nat, error: Option<NetError>)
      requires ctx.Valid() && lo <= hi <= p.Length
      modifies ctx, conn`arrivals, p
      ensures ctx.Valid()
      ensures old(ctx.parentDone) ==> ctx.parentDone
      ensures old(ctx.childDone) ==> ctx.childDone
      ensures old(ctx.childDone) ==> error.Some? && !error.value.Net?
      ensures
        var d := Deliver(old(conn.arrivals), hi - lo);
        if error.Some? && !error.value.Net? then
          && ctx.childDone && (error.value.DeadlineExceeded? ==> ctx.parentDone && ctx.hasDeadline)
          && n == 0 && conn.arrivals == old(conn.arrivals)
        else
          && error == (if d.status == Live then None else Some(Net(d.status)))
          && n == |d.data| && conn.arrivals == d.rest
          && (forall i :: lo <= i < lo + n ==> p[i] == d.data[i - lo])
      ensures forall i :: 0 <= i < lo || lo + n <= i < p.Length ==> p[i] == old(p[i])
    {
      ctx.Pass();
      if ctx.childDone {
        n := 0;
        error := Some(Canceled);
        var deadlineFirst: bool := *;
        if ctx.parentDone && ctx.hasDeadline && deadlineFirst {
          error := Some(DeadlineExceeded);
        }
        return;
      }
      var status;
      n, status := conn.Read(p, lo, hi);
      error := if status == Live then None else Some(Net(status));
    }

    /** One read and, unless it came with an error, one write; `done` when the relay is to stop. */
    method RelayOnce(w: TimeoutWriter, buf: array<byte>) returns (written: nat, done: bool, ok: bool)
      requires ctx.Valid() && w.ctx == ctx && buf.Length == RELAY_BUFFER
      modifies ctx, conn`arrivals, w`received, w`faulted, buf
      ensures ctx.Valid() && |w.received| == |old(w.received)| + written
      ensures !done ==>
                && w.received + Relayed(conn.arrivals) == old(w.received) + Relayed(old(conn.arrivals))
                && Ending(conn.arrivals) == Ending(old(conn.arrivals))
      ensures !done ==>
                || Size(conn.arrivals) < Size(old(conn.arrivals))
                || (ctx.parentDone && ctx.hasDeadline && written == 0 && conn.arrivals == old(conn.arrivals))
      ensures w.reliable ==> w.faulted == old(w.faulted)
      ensures w.received <= old(w.received) + Relayed(old(conn.arrivals))
      ensures done && !ctx.childDone && !w.faulted ==>
                && w.received == old(w.received) + Relayed(old(conn.arrivals))
                && ok == (Ending(old(conn.arrivals)) == Closed)
    {
      hide Relayed, Deliver, Stream, Ending, DataWithEnd, Size;
      DeliverKeepsStream(conn.arrivals, RELAY_BUFFER);
      RelayedStep(conn.arrivals, w.received);
      var n, error := Read(buf, 0, buf.Length);
      written, ok := 0, false;
      if error.Some? {
        ok := error.value == Net(Closed);
        done := ok || !error.value.IsTimeout();
        return;
      }
      assert buf[..n] == Deliver(old(conn.arrivals), RELAY_BUFFER).data;
      written, ok := w.Write(buf[..n]);
      done := !ok;
    }

    /**
     * Relays until the connection ends. Unless the context became done or a write failed, the writer got every
     * read that came without an error, and nothing else; on a reliable writer, under a context that is never
     * cancelled, that is so.
     */
    method WriteTo(w: TimeoutWriter) returns (total: nat, ok: bool)
      requires ctx.Valid() && (ctx.hasDeadline ==> ctx.uncancelled) && w.ctx == ctx
      modifies ctx, conn`arrivals, w`received, w`faulted
      ensures ctx.Valid() && |w.received| == |old(w.received)| + total
      ensures w.received <= old(w.received) + Relayed(old(conn.arrivals))
      ensures !ctx.childDone && !w.faulted ==>
                && w.received == old(w.received) + Relayed(old(conn.arrivals))
                && ok == (Ending(old(conn.arrivals)) == Closed)
      ensures ctx.uncancelled && w.reliable && !old(w.faulted) ==> !ctx.childDone && !w.faulted
    {
      total, ok := 0, false;
      var buf := new byte[RELAY_BUFFER](_ => 0);
      var done := false;
      while !done
        invariant ctx.Valid() && fresh(buf) && buf.Length == RELAY_BUFFER
        invariant |w.received| == |old(w.received)| + total
        invariant w.reliable ==> w.faulted == old(w.faulted)
        invariant w.received <= old(w.received) + Relayed(old(conn.arrivals))
        invariant !done ==>
                    && w.received + Relayed(conn.arrivals) == old(w.received) + Relayed(old(conn.arrivals))
                    && Ending(conn.arrivals) == Ending(old(conn.arrivals))
        invariant done && !ctx.childDone && !w.faulted ==>
                    && w.received == old(w.received) + Relayed(old(conn.arrivals))
                    && ok == (Ending(old(conn.arrivals)) == Closed)
        decreases if done then 0 else 1, Size(conn.arrivals)
      {
        hide Relayed, Deliver, Ending, Size;
        var written;
        written, done, ok := RelayOnce(w, buf);
        total := total + written;
      }
    }
  }

  class TimeoutWriter {
    const ctx: Context
    /** No write to the connection fails. */
    const reliable: bool
    var received: bytes
    /** A write to the connection failed. */
    ghost var faulted: bool

    constructor (ctx: Context, reliable: bool)
      ensures this.ctx == ctx && this.reliable == reliable && received == [] && !faulted
    {
      this.ctx, this.reliable, received, faulted := ctx, reliable, [], false;
    }

    /** All of `p` arrives unless an error is reported; nothing arrives once the child context is done. */
    method Write(p: bytes) returns (n: nat, ok: bool)
      requires ctx.Valid()
      modifies ctx, this`received, this`faulted
      ensures ctx.Valid()
      ensures old(ctx.parentDone) ==> ctx.parentDone
      ensures old(ctx.childDone) ==> ctx.childDone && !ok && n == 0
      ensures n <= |p| && received == old(received) + p[..n]
      ensures ok ==> n == |p| && !ctx.childDone
      ensures faulted ==> old(faulted) || !ok
      ensures !ok ==> ctx.childDone || faulted
      ensures old(faulted) ==> faulted
      ensures reliable ==> faulted == old(faulted)
    {
      ctx.Pass();
      if ctx.childDone {
        return 0, false;
      }
      n, ok := |p|, *;
      ok := ok || reliable;
      if !ok {
        n :| 0 <= n <= |p|;
        faulted := true;
      }
      received := received + p[..n];
    }
  }

  // The relay

  const RELAY_BUFFER: nat := 1024

  function Relayed(a: seq<Arrival>): bytes
    decreases Size(a)
  {
    var d := Deliver(a, RELAY_BUFFER);
    DeliverKeepsStream(a, RELAY_BUFFER);
    if d.status.Terminal() then []
    else (if d.status == Live then d.data else []) + Relayed(d.rest)
  }

  lemma RelayedStep(a: seq<Arrival>, sent: bytes)
    ensures
      var d := Deliver(a, RELAY_BUFFER);
      sent + Relayed(a) ==
      if d.status.Terminal() then sent
      else if d.status == Live then (sent + d.data) + Relayed(d.rest)
      else sent + Relayed(d.rest)
  {
    hide Deliver, Stream, Ending, DataWithEnd;
    var d := Deliver(a, RELAY_BUFFER);
    if d.status == Live {
      assert sent + (d.data + Relayed(d.rest)) == (sent + d.data) + Relayed(d.rest);
    }
  }

  /** No read before or at the end of the connection returns data along with an error. */
  predicate ErrorsComeAlone(a: seq<Arrival>) {
    a != [] ==>
      && (a[0].status != Live ==> a[0].data == [])
      && (a[0].status.Terminal() || ErrorsComeAlone(a[1..]))
  }

  lemma {:induction false} RelayedAtMostStream(a: seq<Arrival>)
    ensures |Relayed(a)| <= |Stream(a)|
    decreases Size(a)
  {
    var d := Deliver(a, RELAY_BUFFER);
    DeliverKeepsStream(a, RELAY_BUFFER);
    if !d.status.Terminal() {
      RelayedAtMostStream(d.rest);
    }
  }

  /** The relay loses bytes exactly when a read returns data along with an error. */
  lemma {:induction false} RelayIsCompleteIff(a: seq<Arrival>)
    ensures Relayed(a) == Stream(a) <==> ErrorsComeAlone(a)
    decreases Size(a)
  {
    var d := Deliver(a, RELAY_BUFFER);
    DeliverKeepsStream(a, RELAY_BUFFER);
    if !d.status.Terminal() {
      RelayIsCompleteIff(d.rest);
      RelayedAtMostStream(d.rest);
      assert (d.data + Relayed(d.rest))[|d.data|..] == Relayed(d.rest);
      assert (d.data + Stream(d.rest))[|d.data|..] == Stream(d.rest);
      if |a[0].data| > RELAY_BUFFER {
        assert d.rest[0].data != [] && d.rest[0].status == a[0].status;
        assert d.rest[1..] == a[1..];
        assert ErrorsComeAlone(a) == ErrorsComeAlone(d.rest);
      }
    }
  }

  /** Bytes that arrive with the end of the connection are dropped. */
  lemma ClosingBytesAreDropped(b: bytes)
    requires b != [] && |b| <= RELAY_BUFFER
    ensures var a := [Arrival(b, Closed)]; Stream(a) == b && Relayed(a) == []
  {
    DeliverKeepsStream([Arrival(b, Closed)], RELAY_BUFFER);
  }

  // Chunking

  /** What a stream of arrivals comes to, without where its chunks and timeouts fall. */
  datatype Content = Content(data: bytes, ending: Status, dataWithEnd: bool)

  function ContentOf(a: seq<Arrival>): Content {
    Content(Stream(a), Ending(a), DataWithEnd(a))
  }

  lemma {:induction false} ContentOfAppend(pre: seq<Arrival>, a: seq<Arrival>, b: seq<Arrival>)
    requires ContentOf(a) == ContentOf(b)
    ensures ContentOf(pre + a) == ContentOf(pre + b)
  {
    if pre == [] {
      assert pre + a == a && pre + b == b;
    } else {
      ContentOfAppend(pre[1..], a, b);
      assert (pre + a)[1..] == pre[1..] + a && (pre + b)[1..] == pre[1..] + b;
    }
  }

  /** Splitting a chunk anywhere changes nothing, as long as its last byte stays with what ends it. */
  lemma SplitKeepsContent(pre: seq<Arrival>, x: bytes, y: bytes, status: Status, post: seq<Arrival>)
    requires status.Terminal() ==> x == [] || y != []
    ensures ContentOf(pre + ([Arrival(x, Live), Arrival(y, status)] + post)) ==
            ContentOf(pre + ([Arrival(x + y, status)] + post))
  {
    var one, two := [Arrival(x + y, status)] + post, [Arrival(x, Live), Arrival(y, status)] + post;
    assert one[1..] == post && two[1..] == [Arrival(y, status)] + post && two[1..][1..] == post;
    assert |x + y| == |x| + |y|;
    assert Ending(two) == Ending(one);
    assert DataWithEnd(two) == DataWithEnd(two[1..]) == DataWithEnd(one);
    assert Stream(two) == x + Stream(two[1..]);
    if status.Terminal() {
      assert Stream(two[1..]) == y;
    } else {
      assert x + (y + Stream(post)) == (x + y) + Stream(post);
    }
    ContentOfAppend(pre, two, one);
  }

  lemma TimeoutKeepsContent(pre: seq<Arrival>, post: seq<Arrival>)
    ensures ContentOf(pre + ([Arrival([], TimedOut)] + post)) == ContentOf(pre + post)
  {
    var a := [Arrival([], TimedOut)] + post;
    assert a[1..] == post;
    assert Stream(a) == Stream(post);
    ContentOfAppend(pre, a, post);
  }
}

/** The worker of one client session: cut the byte stream into packets, forward each, then log it. */
module SendTask {
  import opened Bytes
  import opened Codec
  import opened Framing
  import opened SendPacket
  import opened Session
  import opened TimeoutNet

  /** The length `resizeSlice` gives a slice of length `len` and capacity `cap`. */
  function ResizedLength(len: nat, cap: nat, size: nat): nat {
    if cap < size then len + (size - cap) else size
  }

  /** It is the length asked for exactly when the capacity suffices or the slice is full. */
  lemma ResizeGivesSizeIff(len: nat, cap: nat, size: nat)
    requires len <= cap
    ensures ResizedLength(len, cap, size) == size <==> size <= cap || len == cap
  {
  }

  /** A slice at offset 0 of `b`, resized; append makes a new array only when the result does not fit the old one. */
  method ResizeSlice(b: array<byte>, len: nat, size: nat) returns (r: array<byte>, rlen: nat)
    requires len <= b.Length
    modifies b
    ensures rlen == ResizedLength(len, b.Length, size) <= r.Length
    ensures size <= b.Length ==> r == b && b[..] == old(b[..])
    ensures b.Length < size ==> r[..rlen] == old(b[..len]) + seq(rlen - len, _ => 0)
    ensures r == b || fresh(r)
  {
    if b.Length < size {
      rlen := len + (size - b.Length);
      if rlen <= b.Length {
        r := b;
        forall i | len <= i < rlen { b[i] := 0; }
      } else {
        r := new byte[rlen](i requires 0 <= i < rlen reads b => if i < len then b[i] else 0);
      }
    } else {
      r, rlen := b, size;
    }
  }

  /** The log as one session meets it: a shared pool of record objects, and a queue of bounded capacity. */
  class LogWriter {
    /** The records this session has given to the queue, as they were then. */
    ghost var pushed: seq<Record>

    constructor ()
      ensures pushed == []
    {
      pushed := [];
    }

    /** An object no one else holds, with whatever bytes and fields its last use left in it. */
    method GetSendPacket() returns (sp: SendPacket)
      ensures fresh(sp) && fresh(sp.buf) && sp.Valid() && sp.buf.Length == MAX_PACKET_SIZE
      ensures Poolable(sp.View())
    {
      sp := new SendPacket(MAX_PACKET_SIZE);
      sp.datetime, sp.connectionId := *, *;
      sp.user, sp.db, sp.addr, sp.state := *, *, *, *;
      var len: nat :| len <= MAX_PACKET_SIZE;
      sp.len := len;
      var stale: bytes :| |stale| == MAX_PACKET_SIZE by {
        assert |seq<byte>(MAX_PACKET_SIZE, _ => 0)| == MAX_PACKET_SIZE;
      }
      forall i | 0 <= i < MAX_PACKET_SIZE { sp.buf[i] := stale[i]; }
    }

    /** Only objects as the pool makes them go back to it. */
    method PutSendPacket(sp: SendPacket)
      requires sp.Valid() && sp.buf.Length == MAX_PACKET_SIZE && Poolable(sp.View())
    {
    }

    /** The queue takes the object, or the context is done; with both possible either may happen. */
    method PushToLogChannel(ctx: Context, sp: SendPacket) returns (ok: bool)
      requires ctx.Valid() && sp.Valid() && sp.buf.Length == MAX_PACKET_SIZE && Poolable(sp.View())
      modifies this, ctx
      ensures ctx.Valid()
      ensures old(ctx.parentDone) ==> ctx.parentDone
      ensures old(ctx.childDone) ==> ctx.childDone
      ensures !ok ==> ctx.parentDone
      ensures pushed == if ok then old(pushed) + [old(sp.View())] else old(pushed)
    {
      var done := ctx.ParentDone();
      ok := *;
      ok := ok || !done;
      if ok {
        pushed := pushed + [sp.View()];
      }
    }
  }

  datatype WorkError = PlainEof | Other

  /** Enough bytes arrive, free of an error that ends the connection, to fill `size` of them. */
  predicate Fills(c: Content, size: nat) {
    size == 0 || size < |c.data| || (size == |c.data| && !c.dataWithEnd)
  }

  function Taken(c: Content, size: nat): Content
    requires size <= |c.data|
  {
    c.(data := c.data[size..])
  }

  /** What a read that cannot be filled reports. */
  function ShortReadError(c: Content): WorkError {
    if c.data == [] && c.ending == Closed then PlainEof else Other
  }

  /** One read, in terms of what is still to come. */
  lemma DeliverTakes(a: seq<Arrival>, room: nat)
    ensures
      var (c, d) := (ContentOf(a), Deliver(a, room));
      if d.status.Terminal() then
        && c == Content(d.data, d.status, d.data != []) && !Fills(c, room)
        && ShortReadError(c) == if d.data == [] && d.status == Closed then PlainEof else Other
      else
        && |d.data| <= |c.data| && d.data == c.data[..|d.data|]
        && ContentOf(d.rest) == Taken(c, |d.data|)
        && Fills(c, room) == Fills(ContentOf(d.rest), room - |d.data|)
        && (|d.data| == room ==> Fills(c, room))
        && (room > 0 ==> Size(d.rest) < Size(a))
  {
    hide Stream, Ending, DataWithEnd, Deliver, Size;
    var d := Deliver(a, room);
    if room > 0 {
      DeliverKeepsStream(a, room);
    }
    if d.status.Terminal() {
      assert d.data + [] == d.data;
    } else {
      assert (d.data + Stream(d.rest))[|d.data|..] == Stream(d.rest);
      DataWithEndIsData(d.rest);
    }
  }

  /** Reading `n` bytes after `have` others, in terms of what was to come before both. */
  lemma TakenTwice(c: Content, have: nat, n: nat)
    requires have + n <= |c.data|
    ensures Taken(Taken(c, have), n) == Taken(c, have + n)
    ensures forall i :: have <= i < have + n ==> Taken(c, have).data[i - have] == c.data[i]
  {
  }

  lemma Halves(b: bytes, m: nat, n: nat)
    requires m + n <= |b|
    ensures b[..m] + b[m..][..n] == b[..m + n]
  {
  }

  /** Of the content `c`, the bytes `got` have been read on the way to `want` of them, and `rest` is still to come. */
  ghost predicate Splits(c: Content, got: bytes, rest: Content, want: nat)
    requires |got| <= want
  {
    && |got| <= |c.data| && got == c.data[..|got|] && rest == Taken(c, |got|)
    && Fills(c, want) == Fills(rest, want - |got|)
  }

  lemma SplitsNothing(c: Content, want: nat)
    ensures Splits(c, [], c, want)
  {
  }

  lemma SplitsAll(c: Content, got: bytes, rest: Content)
    requires Splits(c, got, rest, |got|)
    ensures |got| <= |c.data| && got == c.data[..|got|] && rest == Taken(c, |got|) && Fills(c, |got|)
  {
  }

  lemma SplitsTwice(c: Content, got: bytes, mid: Content, more: bytes, rest: Content, want: nat)
    requires |got| + |more| <= want && Splits(c, got, mid, want) && Splits(mid, more, rest, want - |got|)
    ensures Splits(c, got + more, rest, want)
  {
    hide Fills;
    Halves(c.data, |got|, |more|);
    TakenTwice(c, |got|, |more|);
  }

  /** Why a read fails behind the bytes `got`, in terms of the content before them. */
  lemma FailsBehind(c: Content, got: bytes, mid: Content, want: nat)
    requires |got| <= want && Splits(c, got, mid, want)
    ensures Fills(mid, want - |got|) == Fills(c, want)
    ensures got == [] ==> mid == c
    ensures got != [] ==> ShortReadError(c) == Other
  {
  }

  lemma FailsAfter(c: Content, have: nat)
    requires have <= |c.data|
    ensures Taken(c, 0) == c
    ensures |Taken(c, have).data| == |c.data| - have && Taken(c, have).ending == c.ending
    ensures have > 0 ==> ShortReadError(c) == Other
  {
  }

  class SendTask {
    const reader: TimeoutReader
    const writer: TimeoutWriter
    const ctx: Context
    const info: Info
    const logWriter: LogWriter
    /** The actions taken so far, and the state of the session machine they lead to. */
    ghost var trace: seq<Action>
    ghost var local: Local

    constructor (reader: TimeoutReader, writer: TimeoutWriter, ctx: Context, info: Info, logWriter: LogWriter)
      requires reader.ctx == writer.ctx == ctx
      ensures this.reader == reader && this.writer == writer && this.ctx == ctx
      ensures this.info == info && this.logWriter == logWriter
      ensures trace == [] && local == Initial()
    {
      this.reader, this.writer, this.ctx, this.info, this.logWriter := reader, writer, ctx, info, logWriter;
      trace, local := [], Initial();
    }

    ghost predicate Wired()
      reads ctx, reader.conn, writer
    {
      && reader.ctx == writer.ctx == ctx && ctx.Valid()
      && (reader.conn.reliable ==> !reader.conn.faulted) && (writer.reliable ==> !writer.faulted)
    }

    /** The environment never cancels, and fails no deadline and no write. */
    predicate Undisturbed() {
      ctx.uncancelled && reader.conn.reliable && writer.reliable
    }

    /** No cancellation has reached the connections, and no deadline or write has failed. */
    ghost predicate Clean()
      reads ctx, reader.conn, writer
    {
      !ctx.childDone && !reader.conn.faulted && !writer.faulted
    }

    ghost function Arriving(): Content
      reads reader.conn
    {
      ContentOf(reader.conn.arrivals)
    }

    /** Of the content `c`, the first `size` bytes have been read to the front of `buf[lo..hi]`. */
    ghost predicate ReadSoFar(buf: array<byte>, lo: nat, hi: nat, c: Content, size: nat)
      requires lo <= hi <= buf.Length
      reads reader.conn, buf
    {
      size <= hi - lo && Splits(c, buf[lo..lo + size], Arriving(), hi - lo)
    }

    /** One read, in terms of the content before it: some bytes of it, or what shows that it cannot fill the buffer. */
    method Receive(buf: array<byte>, lo: nat, hi: nat) returns (n: nat, err: Option<NetError>)
      requires Wired() && lo <= hi <= buf.Length
      modifies ctx, reader.conn`arrivals, buf
      ensures Wired() && n <= hi - lo
      ensures old(ctx.parentDone) ==> ctx.parentDone
      ensures old(ctx.childDone) ==> ctx.childDone
      ensures forall i :: 0 <= i < lo ==> buf[i] == old(buf[i])
      ensures
        if err == None || err.value.IsTimeout() then
          && ReadSoFar(buf, lo, hi, old(Arriving()), n)
          && (err == Some(DeadlineExceeded) ==> ctx.parentDone)
          && (lo < hi && err != Some(DeadlineExceeded) ==> Size(reader.conn.arrivals) < Size(old(reader.conn.arrivals)))
        else
          && (err.value == Net(Closed) && n == 0 ==> old(Arriving()).data == [] && old(Arriving()).ending == Closed)
          && (!ctx.childDone ==>
                && !Fills(old(Arriving()), hi - lo)
                && ShortReadError(old(Arriving())) == if n == 0 && err.value == Net(Closed) then PlainEof else Other)
    {
      DeliverTakes(reader.conn.arrivals, hi - lo);
      FailsAfter(Arriving(), 0);
      hide ContentOf, Deliver, Size, Fills, Taken, ShortReadError;
      n, err := reader.Read(buf, lo, hi);
    }

    /** One pass of the read loop, for `buf[lo..hi]`, after `have` bytes before it. */
    method ReadMore(buf: array<byte>, lo: nat, hi: nat, have: nat)
      returns (n: nat, done: bool, error: Option<WorkError>)
      requires Wired() && lo <= hi <= buf.Length && (lo == hi ==> have == 0)
      modifies ctx, reader.conn, buf
      ensures Wired()
      ensures old(ctx.parentDone) ==> ctx.parentDone
      ensures old(ctx.childDone) ==> ctx.childDone
      ensures old(reader.conn.faulted) ==> reader.conn.faulted
      ensures n <= hi - lo
      ensures forall i :: 0 <= i < lo ==> buf[i] == old(buf[i])
      ensures !done ==> error == None && lo + n < hi && Size(reader.conn.arrivals) < Size(old(reader.conn.arrivals))
      ensures done && error == None ==> lo + n == hi || ctx.parentDone
      ensures error == None ==> ReadSoFar(buf, lo, hi, old(Arriving()), n)
      ensures error == Some(PlainEof) ==>
                have == 0 && old(Arriving()).data == [] && old(Arriving()).ending == Closed
      ensures error.Some? && !ctx.childDone && !reader.conn.faulted ==>
                && !Fills(old(Arriving()), hi - lo)
                && error.value == if have == 0 then ShortReadError(old(Arriving())) else Other
    {
      hide ContentOf, Size, Fills, ShortReadError, ReadSoFar;
      n, done, error := 0, true, None;
      var settable := reader.conn.SetReadDeadline();
      if !settable {
        error := Some(Other);
        return;
      }
      var err;
      n, err := Receive(buf, lo, hi);
      if err.Some? && !err.value.IsTimeout() {
        error := Some(if have + n == 0 && err.value == Net(Closed) then PlainEof else Other);
        return;
      }
      done := false;
      if err.Some? {
        done := ctx.ParentDone();
      }
      done := done || lo + n == hi;
    }

    /** Reading `size` bytes of `c` failed; with no cancellation or fault, for lack of them. */
    ghost predicate ReadFailed(c: Content, size: nat, error: WorkError)
      reads ctx, reader.conn
    {
      && (error == PlainEof ==> c.data == [] && c.ending == Closed)
      && (!ctx.childDone && !reader.conn.faulted ==> !Fills(c, size) && error == ShortReadError(c))
    }

    /** One pass of the read loop, in terms of the content before the first. */
    method ReadNext(buf: array<byte>, lo: nat, hi: nat, size: nat, ghost c: Content)
      returns (n: nat, done: bool, error: Option<WorkError>)
      requires Wired() && lo <= hi <= buf.Length && (size == hi - lo ==> size == 0)
      requires ReadSoFar(buf, lo, hi, c, size)
      modifies ctx, reader.conn, buf
      ensures Wired()
      ensures old(ctx.parentDone) ==> ctx.parentDone
      ensures old(ctx.childDone) ==> ctx.childDone
      ensures old(reader.conn.faulted) ==> reader.conn.faulted
      ensures n <= hi - lo - size
      ensures buf[..lo] == old(buf[..lo])
      ensures !done ==>
                error == None && size + n < hi - lo && Size(reader.conn.arrivals) < Size(old(reader.conn.arrivals))
      ensures done && error == None ==> size + n == hi - lo || ctx.parentDone
      ensures if error == None then ReadSoFar(buf, lo, hi, c, size + n) else ReadFailed(c, hi - lo, error.value)
    {
      hide ContentOf, Size, Fills, ShortReadError, Splits;
      ghost var got, mid := buf[lo..lo + size], Arriving();
      n, done, error := ReadMore(buf, lo + size, hi, size);
      if error == None {
        assert buf[lo..lo + size + n] == got + buf[lo + size..lo + size + n];
        SplitsTwice(c, got, mid, buf[lo + size..lo + size + n], Arriving(), hi - lo);
      } else {
        FailsBehind(c, got, mid, hi - lo);
      }
    }

    /**
     * Fills `buf[lo..hi]`. A short count with no error happens only under a done worker context; then the rest of
     * the slice keeps its old bytes.
     */
    method ReadFullMysqlPacket(buf: array<byte>, lo: nat, hi: nat) returns (size: nat, error: Option<WorkError>)
      requires Wired() && lo <= hi <= buf.Length
      modifies ctx, reader.conn, buf
      ensures Wired()
      ensures old(ctx.parentDone) ==> ctx.parentDone
      ensures old(ctx.childDone) ==> ctx.childDone
      ensures old(reader.conn.faulted) ==> reader.conn.faulted
      ensures size <= hi - lo
      ensures buf[..lo] == old(buf[..lo])
      ensures error == None ==> size == hi - lo || ctx.parentDone
      ensures error == None && size == hi - lo ==>
                && size <= |old(Arriving()).data|
                && buf[lo..hi] == old(Arriving()).data[..size]
                && Arriving() == Taken(old(Arriving()), size)
                && Fills(old(Arriving()), size)
      ensures error.Some? ==> ReadFailed(old(Arriving()), hi - lo, error.value)
    {
      ghost var c := Arriving();
      ReadNothing(buf, lo, hi);
      hide ContentOf, Size, Taken, Fills, ShortReadError, ReadFailed, Splits, ReadSoFar;
      size, error := ReadLoop(buf, lo, hi, c);
      if error == None && size == hi - lo {
        ReadAll(buf, lo, hi, c);
      }
    }

    method ReadLoop(buf: array<byte>, lo: nat, hi: nat, ghost c: Content)
      returns (size: nat, error: Option<WorkError>)
      requires Wired() && lo <= hi <= buf.Length && ReadSoFar(buf, lo, hi, c, 0)
      modifies ctx, reader.conn, buf
      ensures Wired()
      ensures old(ctx.parentDone) ==> ctx.parentDone
      ensures old(ctx.childDone) ==> ctx.childDone
      ensures old(reader.conn.faulted) ==> reader.conn.faulted
      ensures size <= hi - lo && buf[..lo] == old(buf[..lo])
      ensures error == None ==> size == hi - lo || ctx.parentDone
      ensures if error == None then ReadSoFar(buf, lo, hi, c, size) else ReadFailed(c, hi - lo, error.value)
    {
      hide ContentOf, Size, ReadFailed, ReadSoFar, Wired;
      var done;
      size, done, error := 0, false, None;
      while !done
        invariant Wired() && size <= hi - lo
        invariant old(ctx.parentDone) ==> ctx.parentDone
        invariant old(ctx.childDone) ==> ctx.childDone
        invariant old(reader.conn.faulted) ==> reader.conn.faulted
        invariant buf[..lo] == old(buf[..lo])
        invariant if error == None then ReadSoFar(buf, lo, hi, c, size) else ReadFailed(c, hi - lo, error.value)
        invariant !done ==> error == None && (size == hi - lo ==> size == 0)
        invariant done && error == None ==> size == hi - lo || ctx.parentDone
        decreases if done then 0 else 1, Size(reader.conn.arrivals)
      {
        var n;
        n, done, error := ReadNext(buf, lo, hi, size, c);
        size := size + n;
      }
    }

    lemma ReadNothing(buf: array<byte>, lo: nat, hi: nat)
      requires lo <= hi <= buf.Length
      ensures ReadSoFar(buf, lo, hi, Arriving(), 0)
    {
      SplitsNothing(Arriving(), hi - lo);
      hide Splits, ContentOf;
      assert buf[lo..lo + 0] == [];
    }

    lemma ReadAll(buf: array<byte>, lo: nat, hi: nat, c: Content)
      requires lo <= hi <= buf.Length && ReadSoFar(buf, lo, hi, c, hi - lo)
      ensures hi - lo <= |c.data| && buf[lo..hi] == c.data[..hi - lo]
      ensures Arriving() == Taken(c, hi - lo) && Fills(c, hi - lo)
    {
      assert lo + (hi - lo) == hi;
      SplitsAll(c, buf[lo..hi], Arriving());
    }

    /** The packet at the front of what is still to come has been received in whole, by reads free of errors. */
    ghost predicate Deliverable(c: Content) {
      HasPacket(c.data) && Fills(c, |FirstPacket(c.data)|)
    }

    /**
     * Reads a header into the front of `b`. With no error either the header is the stream's, or the worker's context
     * is done and `length` may come from bytes of the buffer's last use.
     */
    method ReadHeader(b: array<byte>, len: nat) returns (dst: array<byte>, length: nat, error: Option<WorkError>)
      requires Wired() && len <= b.Length == MAX_PACKET_SIZE
      modifies ctx, reader.conn, b
      ensures Wired() && dst == b && length <= MAX_PAYLOAD
      ensures old(ctx.parentDone) ==> ctx.parentDone
      ensures old(ctx.childDone) ==> ctx.childDone
      ensures old(reader.conn.faulted) ==> reader.conn.faulted
      ensures error == None ==> ctx.parentDone || HeaderRead(old(Arriving()), b[..HEADER_SIZE], length)
      ensures error == Some(PlainEof) ==> old(Arriving()).data == [] && old(Arriving()).ending == Closed
      ensures error.Some? && !ctx.childDone && !reader.conn.faulted ==>
                !Fills(old(Arriving()), HEADER_SIZE) && error.value == ShortReadError(old(Arriving()))
    {
      hide ContentOf, BitOr, Pow2;
      var n, dlen;
      dst, dlen := ResizeSlice(b, len, HEADER_SIZE);
      n, error := ReadFullMysqlPacket(dst, 0, HEADER_SIZE);
      if error.Some? {
        length := 0;
        return;
      }
      assert n == HEADER_SIZE ==> dst[0..HEADER_SIZE] == dst[..HEADER_SIZE];
      HeaderLengthIsLittleEndian(dst[..HEADER_SIZE]);
      length := HeaderLength(dst[..HEADER_SIZE]);
    }

    ghost predicate HeaderRead(c: Content, header: bytes, length: nat)
      reads reader.conn
    {
      && |c.data| >= HEADER_SIZE && Fills(c, HEADER_SIZE) && header == c.data[..HEADER_SIZE]
      && length == HeaderLength(c.data) && Arriving() == Taken(c, HEADER_SIZE)
    }

    /** Reads one packet into `b`, or a part of one when the worker's context is done. */
    method ReadPacket(b: array<byte>, len: nat) returns (dst: array<byte>, dlen: nat, error: Option<WorkError>)
      requires Wired() && len <= b.Length == MAX_PACKET_SIZE
      modifies ctx, reader.conn, b
      ensures Wired() && dst == b && dlen <= b.Length
      ensures old(ctx.parentDone) ==> ctx.parentDone
      ensures old(ctx.childDone) ==> ctx.childDone
      ensures old(reader.conn.faulted) ==> reader.conn.faulted
      ensures error == None ==>
                || ctx.parentDone
                || (&& Deliverable(old(Arriving())) && b[..dlen] == FirstPacket(old(Arriving()).data)
                    && Arriving() == Taken(old(Arriving()), dlen))
      ensures error == Some(PlainEof) ==>
                old(Arriving()).data == [] && old(Arriving()).ending == Closed && dlen == 0
      ensures error.Some? && !ctx.childDone && !reader.conn.faulted ==>
                && !Deliverable(old(Arriving()))
                && (error.value == PlainEof <==> ShortReadError(old(Arriving())) == PlainEof)
    {
      hide ContentOf, BitOr, Pow2;
      ghost var c := Arriving();
      var length;
      dst, length, error := ReadHeader(b, len);
      dlen := 0;
      if error.Some? {
        NoHeader(c);
        return;
      }
      ghost var header := dst[..HEADER_SIZE];
      ghost var whole := HeaderRead(c, header, length);
      if whole {
        HeaderDecides(c, length);
      }
      hide Fills, ShortReadError, HasPacket, FirstPacket, HeaderLength;
      dst, dlen := ResizeSlice(dst, HEADER_SIZE, length + HEADER_SIZE);
      var n;
      n, error := ReadFullMysqlPacket(dst, HEADER_SIZE, length + HEADER_SIZE);
      assert dst[..HEADER_SIZE] == header;
      if whole && error == None && n == length {
        TakenTwice(c, HEADER_SIZE, length);
        assert dst[..dlen] == header + dst[HEADER_SIZE..dlen];
        Halves(c.data, HEADER_SIZE, length);
      }
      if error.Some? {
        error := Some(Other);
      }
    }

    /**
     * Reads one packet into `b` and writes it to the target. Only a packet of the stream is ever written; what a
     * read cut short by cancellation left in the buffer is not. The buffer is never reallocated.
     */
    method WriteBufferAndSend(b: array<byte>, len: nat) returns (dst: array<byte>, dlen: nat, error: Option<WorkError>)
      requires Wired() && len <= b.Length == MAX_PACKET_SIZE
      modifies ctx, reader.conn, writer, b
      ensures Wired() && dst == b && dlen <= b.Length
      ensures old(ctx.parentDone) ==> ctx.parentDone
      ensures old(ctx.childDone) ==> ctx.childDone
      ensures old(reader.conn.faulted) ==> reader.conn.faulted
      ensures old(writer.faulted) ==> writer.faulted
      ensures error == None ==>
                && Deliverable(old(Arriving()))
                && b[..dlen] == FirstPacket(old(Arriving()).data)
                && Arriving() == Taken(old(Arriving()), dlen)
                && writer.received == old(writer.received) + b[..dlen]
      ensures error.Some? ==> PartialWrite(old(writer.received), writer.received, old(Arriving()).data)
      ensures error == Some(PlainEof) ==>
                && old(Arriving()).data == [] && old(Arriving()).ending == Closed
                && dlen == 0 && writer.received == old(writer.received)
      ensures error.Some? && Clean() ==>
                && !Deliverable(old(Arriving()))
                && (error.value == PlainEof <==> ShortReadError(old(Arriving())) == PlainEof)
                && writer.received == old(writer.received)
    {
      hide ContentOf, HasPacket, FirstPacket;
      dst, dlen, error := ReadPacket(b, len);
      if error.Some? {
        return;
      }
      var n, ok := writer.Write(dst[..dlen]);
      if !ok {
        error := Some(Other);
      }
    }

    // The session machine

    ghost predicate Running()
      reads this
    {
      Run(info, trace) == Some(local) && PoolableGets(trace)
    }

    ghost method Step(a: Action)
      requires Running() && Act(info, local, a).Some? && (a.Get? ==> Poolable(a.stale))
      modifies this`trace, this`local
      ensures Running() && local == Act(info, old(local), a).value
    {
      hide Act;
      local := Act(info, local, a).value;
      trace := trace + [a];
      assert trace[..|trace| - 1] == old(trace);
    }

    /** An object of the pool, stamped for this session; `stale` is what it held before. */
    method NewSendPacket() returns (sp: SendPacket, ghost stale: Record)
      ensures fresh(sp) && fresh(sp.buf) && sp.Valid() && sp.buf.Length == MAX_PACKET_SIZE
      ensures Poolable(stale) && sp.View() == Stamped(info, Est, sp.datetime, stale)
    {
      sp := logWriter.GetSendPacket();
      stale := sp.View();
      sp.datetime := *;
      sp.user, sp.addr, sp.db, sp.connectionId := info.user, info.addr, info.db, info.connectionId;
      sp.state := StateName(Est);
    }

    method SendState(kind: Kind, ghost before: seq<Record>)
      requires Wired() && Running() && local.held == None
      requires logWriter.pushed == before + local.pushed
      requires (kind == Connect && local.phase == Start) || (kind == Disconnect && local.phase == Stopping)
      modifies ctx, logWriter, this`trace, this`local
      ensures Wired() && Running()
      ensures old(ctx.parentDone) ==> ctx.parentDone
      ensures old(ctx.childDone) ==> ctx.childDone
      ensures local.phase == AfterState(kind) && local.held == None && local.forwarded == old(local.forwarded)
      ensures local.lost == old(local.lost) || (ctx.parentDone && local.lost == old(local.lost) + {kind})
      ensures logWriter.pushed == before + local.pushed
    {
      hide Run, PoolableGets, StateName;
      var sp;
      ghost var stale;
      sp, stale := NewSendPacket();
      sp.state := StateName(kind);
      sp.len := 0;
      assert sp.View() == Stamped(info, kind, sp.datetime, stale);
      Step(Get(sp.datetime, stale));
      var ok := logWriter.PushToLogChannel(ctx, sp);
      Step(if ok then Push else Lose);
    }

    /** Between two passes of the worker's loop: no object in hand, and every push so far is in the log. */
    ghost predicate Ready(before: seq<Record>)
      reads this, ctx, reader.conn, writer, logWriter
    {
      && Wired() && Running()
      && local.phase == Idle && local.held == None
      && logWriter.pushed == before + local.pushed
    }

    /** After the loop: `sp` is the object in hand, if any. */
    ghost predicate Leaving(before: seq<Record>, sp: SendPacket?)
      reads this, ctx, reader.conn, writer, logWriter, sp, if sp == null then {} else {sp.buf}
    {
      && Wired() && Running()
      && logWriter.pushed == before + local.pushed
      && if sp == null then local.phase == Idle && local.held == None
         else
           && (local.phase == Holding || local.phase == Sent)
           && sp.Valid() && sp.buf.Length == MAX_PACKET_SIZE && Poolable(sp.View())
           && local.held == Some(sp.View())
    }

    /** Reads a packet into the object in hand and forwards it. */
    method ForwardPacket(sp: SendPacket, ghost before: seq<Record>) returns (error: Option<WorkError>)
      requires Leaving(before, sp) && local.phase == Holding
      modifies ctx, reader.conn, writer, sp, sp.buf, this`trace, this`local
      ensures Leaving(before, sp) && sp.buf == old(sp.buf)
      ensures old(ctx.parentDone) ==> ctx.parentDone
      ensures old(ctx.childDone) ==> ctx.childDone
      ensures old(reader.conn.faulted) ==> reader.conn.faulted
      ensures old(writer.faulted) ==> writer.faulted
      ensures local.lost == old(local.lost) && local.phase == (if error == None then Sent else Holding)
      ensures (error == None ==> sp.len > 0) && (error == Some(PlainEof) ==> sp.len == 0)
      ensures if error == None then Forwarded(old(Arriving()), old(local.forwarded), old(writer.received))
              else local.forwarded == old(local.forwarded)
      ensures error.Some? ==> Stopped(error == Some(PlainEof), old(Arriving()), old(writer.received))
    {
      hide ContentOf, HasPacket, FirstPacket, Run, PoolableGets, PartialWrite;
      ghost var c, r := Arriving(), sp.View();
      sp.buf, sp.len, error := WriteBufferAndSend(sp.buf, sp.len);
      if error == None {
        assert sp.Packets() == FirstPacket(c.data);
        FirstPacketIsPacket(c.data);
      }
      FillAndForward(sp, r, before, error == None);
    }

    /** The machine's actions when the buffer of the object in hand has been filled, and perhaps forwarded. */
    ghost method FillAndForward(sp: SendPacket, r: Record, before: seq<Record>, forward: bool)
      requires Wired() && Running() && local.phase == Holding && local.held == Some(r)
      requires logWriter.pushed == before + local.pushed
      requires sp.Valid() && sp.buf.Length == MAX_PACKET_SIZE && Poolable(r)
      requires sp.View() == r.(packets := sp.Packets()) && (forward ==> IsPacket(sp.Packets()))
      modifies this`trace, this`local
      ensures Leaving(before, sp) && local.lost == old(local.lost)
      ensures local.phase == (if forward then Sent else Holding)
      ensures local.forwarded == old(local.forwarded) + (if forward then [sp.Packets()] else [])
    {
      hide HasPacket, Run, PoolableGets;
      Step(Fill(sp.Packets()));
      if forward {
        Step(Forward);
      }
    }

    /** One whole packet has been forwarded, of the stream `c`. */
    ghost predicate Forwarded(c: Content, forwarded: seq<bytes>, received: bytes)
      reads this, reader.conn, writer
    {
      && Deliverable(c)
      && local.forwarded == forwarded + [FirstPacket(c.data)]
      && Arriving() == Taken(c, |FirstPacket(c.data)|)
      && writer.received == received + FirstPacket(c.data)
    }

    /** Nothing more could be forwarded of the stream `c`; `atEnd` when it ended between packets. */
    ghost predicate Stopped(atEnd: bool, c: Content, received: bytes)
      reads this, ctx, reader.conn, writer
    {
      && PartialWrite(received, writer.received, c.data)
      && (atEnd ==> c.data == [] && c.ending == Closed && writer.received == received)
      && (Clean() ==>
            && !Deliverable(c) && (atEnd <==> ShortReadError(c) == PlainEof)
            && writer.received == received)
    }

    /** Gives the forwarded packet to the log queue, unless the worker's context is done. */
    method PushForwarded(sp: SendPacket, ghost before: seq<Record>) returns (ok: bool)
      requires Leaving(before, sp) && local.phase == Sent
      modifies ctx, logWriter, this`trace, this`local
      ensures if ok then Ready(before) else Leaving(before, sp) && local.phase == Sent && ctx.parentDone
      ensures old(ctx.parentDone) ==> ctx.parentDone
      ensures old(ctx.childDone) ==> ctx.childDone
      ensures local.lost == old(local.lost) && local.forwarded == old(local.forwarded)
    {
      hide Run, PoolableGets;
      ok := logWriter.PushToLogChannel(ctx, sp);
      if ok {
        Step(Push);
      }
    }

    /**
     * One pass of the worker's loop. Without a result one packet has been forwarded and logged. With one, either
     * nothing more was forwarded, or one packet was and its push lost to the worker's context.
     */
    method Cycle(ghost before: seq<Record>) returns (sp: SendPacket?, result: Option<Result>)
      requires Ready(before)
      modifies ctx, reader.conn, writer, logWriter, this`trace, this`local
      ensures if result == None then sp == null && Ready(before) else Leaving(before, sp)
      ensures sp != null ==> fresh(sp) && fresh(sp.buf)
      ensures old(ctx.parentDone) ==> ctx.parentDone
      ensures old(ctx.childDone) ==> ctx.childDone
      ensures old(reader.conn.faulted) ==> reader.conn.faulted
      ensures old(writer.faulted) ==> writer.faulted
      ensures local.lost == old(local.lost)
      ensures local.phase == Sent ==> ctx.parentDone && result == Some(ContextDone)
      ensures result == Some(ContextDone) ==> ctx.parentDone
      ensures if result == None || local.phase == Sent
              then Forwarded(old(Arriving()), old(local.forwarded), old(writer.received))
              else
                && local.forwarded == old(local.forwarded)
                && Stopped(result == Some(EndOfStream), old(Arriving()), old(writer.received))
    {
      hide ContentOf, HasPacket, FirstPacket, Run, PoolableGets, PartialWrite;
      sp, result := null, None;
      var done := ctx.ParentDone();
      if done {
        result := Some(ContextDone);
        PartialWriteOfNothing(writer.received, Arriving().data);
        return;
      }
      ghost var stale;
      sp, stale := NewSendPacket();
      Step(Get(sp.datetime, stale));
      var error := ForwardPacket(sp, before);
      assert error.Some? ==> error.value == PlainEof || error.value == Other;
      if error == Some(Other) {
        result := Some(Broken);
        return;
      }
      if sp.len > 0 {
        var ok := PushForwarded(sp, before);
        if !ok {
          result := Some(ContextDone);
          return;
        }
        sp := null;
      }
      if error == Some(PlainEof) {
        result := Some(EndOfStream);
      }
    }

    /** What has been forwarded, with what the target got, when the worker has come to the content `c`. */
    ghost predicate ForwardedUpTo(c0: Content, c: Content, received: bytes)
      reads this, writer
    {
      && Progress(c0, c, local.forwarded)
      && PartialWrite(received + Flatten(local.forwarded), writer.received, c.data)
    }

    /** Why the worker's loop ended, when it had come to the content `c`. */
    ghost predicate Ended(result: Result, c: Content)
      reads this, ctx, reader.conn, writer
    {
      && (result == ContextDone ==> ctx.parentDone)
      && (result == EndOfStream ==> c.data == [])
      && (Clean() ==> !Deliverable(c) && (result == EndOfStream <==> ShortReadError(c) == PlainEof))
    }

    /** All that has been forwarded has reached the target, and `c` is what is still to come. */
    ghost predicate Level(c0: Content, c: Content, received: bytes)
      reads this, reader.conn, writer
    {
      && ForwardedUpTo(c0, c, received) && c == Arriving()
      && writer.received == received + Flatten(local.forwarded)
    }

    /** One pass of the loop, which comes from the content `c` to `next`. */
    method Pass(ghost before: seq<Record>, ghost c0: Content, ghost c: Content, ghost received: bytes)
      returns (sp: SendPacket?, outcome: Option<Result>, ghost next: Content)
      requires Ready(before) && Level(c0, c, received)
      modifies ctx, reader.conn, writer, logWriter, this`trace, this`local
      ensures if outcome == None then Ready(before) && Level(c0, next, received) && |next.data| < |c.data|
              else Leaving(before, sp) && ForwardedUpTo(c0, next, received) && Ended(outcome.value, next)
      ensures sp != null ==> fresh(sp) && fresh(sp.buf)
      ensures old(ctx.parentDone) ==> ctx.parentDone
      ensures old(ctx.childDone) ==> ctx.childDone
      ensures old(reader.conn.faulted) ==> reader.conn.faulted
      ensures old(writer.faulted) ==> writer.faulted
      ensures local.lost == old(local.lost) && (local.phase == Sent ==> ctx.parentDone)
    {
      hide Run, PoolableGets, Progress, PartialWrite, Flatten, HasPacket, FirstPacket, ContentOf;
      next := c;
      ghost var forwarded := local.forwarded;
      sp, outcome := Cycle(before);
      if outcome == None || local.phase == Sent {
        ProgressStep(c0, c, forwarded);
        FlattenOne(received, forwarded, FirstPacket(c.data));
        next := Taken(c, |FirstPacket(c.data)|);
        PartialWriteOfNothing(writer.received, next.data);
      }
    }

    /** The worker's loop. */
    method ForwardAll(ghost before: seq<Record>) returns (sp: SendPacket?, result: Result, ghost c: Content)
      requires Ready(before) && local.forwarded == []
      modifies ctx, reader.conn, writer, logWriter, this`trace, this`local
      ensures Leaving(before, sp) && (sp != null ==> fresh(sp) && fresh(sp.buf))
      ensures old(ctx.parentDone) ==> ctx.parentDone
      ensures old(ctx.childDone) ==> ctx.childDone
      ensures old(reader.conn.faulted) ==> reader.conn.faulted
      ensures old(writer.faulted) ==> writer.faulted
      ensures local.lost == old(local.lost) && (local.phase == Sent ==> ctx.parentDone)
      ensures ForwardedUpTo(old(Arriving()), c, old(writer.received)) && Ended(result, c)
      ensures result == ContextDone ==> ctx.parentDone
    {
      ghost var c0, received := Arriving(), writer.received;
      DataWithEndIsData(reader.conn.arrivals);
      ProgressStart(c0);
      PartialWriteOfNothing(received, c0.data);
      assert received + Flatten([]) == received;
      hide Run, PoolableGets, Progress, PartialWrite, Flatten, HasPacket, FirstPacket, ContentOf;
      assert Level(c0, c0, received);
      var outcome: Option<Result>;
      sp, outcome, c := null, None, c0;
      hide Level, Leaving, ForwardedUpTo, Ended;
      while outcome == None
        invariant if outcome == None then Ready(before) && Level(c0, c, received)
                  else Leaving(before, sp) && ForwardedUpTo(c0, c, received) && Ended(outcome.value, c)
        invariant sp != null ==> fresh(sp) && fresh(sp.buf)
        invariant old(ctx.parentDone) ==> ctx.parentDone
        invariant old(ctx.childDone) ==> ctx.childDone
        invariant old(reader.conn.faulted) ==> reader.conn.faulted
        invariant old(writer.faulted) ==> writer.faulted
        invariant local.lost == old(local.lost) && (local.phase == Sent ==> ctx.parentDone)
        decreases if outcome == None then 1 else 0, |c.data|
      {
        sp, outcome, c := Pass(before, c0, c, received);
      }
      result := outcome.value;
    }

    /**
     * Runs a session from its "connect" to its "disconnect" record, as one run of the session machine.
     * What reached the target is the forwarded packets and at most a part of the next; they are the first packets of
     * the stream, and without cancellation or failures they are all that could be read whole.
     */
    method Worker() returns (result: Result)
      requires Wired() && trace == [] && local == Initial()
      modifies ctx, reader.conn, writer, logWriter, this`trace, this`local
      ensures Wired() && Running() && local.phase == Done
      ensures logWriter.pushed == old(logWriter.pushed) + local.pushed
      ensures FirstOf(local.forwarded, Packets(old(Arriving()).data))
      ensures |Flatten(local.forwarded)| <= |old(Arriving()).data|
      ensures PartialWrite(old(writer.received) + Flatten(local.forwarded), writer.received,
                           old(Arriving()).data[|Flatten(local.forwarded)|..])
      ensures result == EndOfStream ==>
                local.forwarded == Packets(old(Arriving()).data) && Leftover(old(Arriving()).data) == []
      ensures Clean() ==>
                && local.forwarded == Forwardable(old(Arriving())) && local.lost == {}
                && (result == EndOfStream <==> EndsBetweenPackets(old(Arriving())))
      ensures Inv(info, local)
      ensures Clean() ==> CompleteLog(info, Forwardable(old(Arriving())), local.pushed)
      ensures Clean() ==> SpelledLog(info, Forwardable(old(Arriving())), local.pushed)
      ensures Undisturbed() ==> Clean()
      ensures result == ContextDone ==> ctx.parentDone
    {
      hide Run, PoolableGets, Progress, PartialWrite, Flatten, HasPacket, FirstPacket, Packets, Leftover, ContentOf;
      hide Inv, CompleteLog, SpelledLog, FirstOf, Forwardable, EndsBetweenPackets;
      ghost var before := logWriter.pushed;
      RunOfNothing(info);
      SendState(Connect, before);
      var sp;
      ghost var c;
      sp, result, c := ForwardAll(before);
      ProgressBounds(old(Arriving()), c, local.forwarded);
      if sp != null {
        logWriter.PutSendPacket(sp);
        Step(Put);
      } else {
        Step(Leave);
      }
      SendState(Disconnect, before);
      SessionLog(info, trace, local);
    }
  }

  lemma RunOfNothing(info: Info)
    ensures Run(info, []) == Some(Initial()) && PoolableGets([])
  {
  }

  /** The log of a session that has run to its end. */
  lemma SessionLog(info: Info, trace: seq<Action>, l: Local)
    requires Run(info, trace) == Some(l) && PoolableGets(trace) && l.phase == Done
    ensures Inv(info, l)
    ensures l.lost == {} ==>
              CompleteLog(info, l.forwarded, l.pushed) && SpelledLog(info, l.forwarded, l.pushed)
  {
    RunKeepsInv(info, trace);
    hide Run, PoolableGets, CompleteLog, SpelledLog, Inv;
    if l.lost == {} {
      FinishedSessionLog(info, l);
      CompleteLogIsSpelled(info, l.forwarded, l.pushed);
    }
  }

  lemma FlattenOne(received: bytes, forwarded: seq<bytes>, p: bytes)
    ensures received + Flatten(forwarded + [p]) == (received + Flatten(forwarded)) + p
  {
    FlattenAppend(forwarded, [p]);
    assert Flatten([p]) == p + Flatten([]) == p;
  }

  predicate FirstOf(a: seq<bytes>, b: seq<bytes>) {
    |a| <= |b| && a == b[..|a|]
  }

  /** The packets that can be read whole, by reads free of errors. */
  function Forwardable(c: Content): seq<bytes>
    decreases |c.data|
  {
    if HasPacket(c.data) && Fills(c, |FirstPacket(c.data)|)
    then [FirstPacket(c.data)] + Forwardable(Taken(c, |FirstPacket(c.data)|))
    else []
  }

  /** All whole packets are forwarded, unless the last of them came in along with the end of the connection. */
  lemma {:induction false} ForwardableIs(c: Content)
    requires c.dataWithEnd ==> c.data != []
    ensures
      var ps := Packets(c.data);
      if c.dataWithEnd && Leftover(c.data) == [] then ps != [] && Forwardable(c) == ps[..|ps| - 1]
      else Forwardable(c) == ps
    decreases |c.data|
  {
    hide FirstPacket, HasPacket;
    if HasPacket(c.data) {
      var p := FirstPacket(c.data);
      var rest := c.data[|p|..];
      assert Packets(c.data) == [p] + Packets(rest) && Leftover(c.data) == Leftover(rest);
      if Fills(c, |p|) {
        ForwardableIs(Taken(c, |p|));
        assert Forwardable(c) == [p] + Forwardable(Taken(c, |p|));
        var ps := Packets(rest);
        hide Packets, Leftover, Forwardable, Fills;
        if ps != [] {
          assert ([p] + ps)[..|ps|] == [p] + ps[..|ps| - 1];
        }
      } else {
        assert rest == [];
        NothingLeft();
        assert Forwardable(c) == [];
        hide Packets, Leftover, Forwardable, Fills;
        var one := [p];
        assert one + [] == one && one[..0] == [];
      }
    }
  }

  /** A packet that arrives with the end of the connection is not forwarded. */
  lemma ClosingPacketIsKeptBack(p: bytes)
    requires IsPacket(p)
    ensures var a := [Arrival(p, Closed)]; Packets(Stream(a)) == [p] && Forwardable(ContentOf(a)) == []
  {
    var c := ContentOf([Arrival(p, Closed)]);
    assert c == Content(p, Closed, true);
    assert p[|p|..] == [] && FirstPacket(p) == p;
    NothingLeft();
    assert Packets(p) == [p] + [];
    ForwardableIs(c);
    var one := [p];
    assert one[..0] == [];
  }

  lemma NothingLeft()
    ensures Packets([]) == [] && Leftover([]) == []
  {
  }

  /**
   * Two connections that bring the same bytes, in chunks of any sizes and with timeouts anywhere, have the same
   * packets forwarded: all of them, exactly when the last does not come in along with the end of the connection.
   */
  lemma ForwardingIgnoresChunking(a: seq<Arrival>, b: seq<Arrival>)
    requires Stream(a) == Stream(b) && DataWithEnd(a) == DataWithEnd(b)
    ensures Forwardable(ContentOf(a)) == Forwardable(ContentOf(b))
    ensures Forwardable(ContentOf(a)) == Packets(Stream(a)) <==> !(DataWithEnd(a) && Leftover(Stream(a)) == [])
  {
    DataWithEndIsData(a);
    DataWithEndIsData(b);
    ForwardableIs(ContentOf(a));
    ForwardableIs(ContentOf(b));
  }

  predicate EndsBetweenPackets(c: Content) {
    Leftover(c.data) == [] && c.ending == Closed && !c.dataWithEnd
  }

  /** The packets `forwarded` lie between the streams `c0` and `c`. */
  ghost predicate Progress(c0: Content, c: Content, forwarded: seq<bytes>) {
    && Packets(c0.data) == forwarded + Packets(c.data)
    && Leftover(c0.data) == Leftover(c.data)
    && Forwardable(c0) == forwarded + Forwardable(c)
    && c.ending == c0.ending && c.dataWithEnd == c0.dataWithEnd && (c.dataWithEnd ==> c.data != [])
    && |Flatten(forwarded)| <= |c0.data| && c.data == c0.data[|Flatten(forwarded)|..]
  }

  lemma ProgressStart(c0: Content)
    requires c0.dataWithEnd ==> c0.data != []
    ensures Progress(c0, c0, [])
  {
    assert [] + Packets(c0.data) == Packets(c0.data) && [] + Forwardable(c0) == Forwardable(c0);
  }

  lemma ProgressStep(c0: Content, c: Content, forwarded: seq<bytes>)
    requires Progress(c0, c, forwarded) && HasPacket(c.data) && Fills(c, |FirstPacket(c.data)|)
    ensures Progress(c0, Taken(c, |FirstPacket(c.data)|), forwarded + [FirstPacket(c.data)])
    ensures |Taken(c, |FirstPacket(c.data)|).data| < |c.data|
  {
    hide HasPacket, FirstPacket;
    var p := FirstPacket(c.data);
    var c' := Taken(c, |p|);
    assert forwarded + ([p] + Packets(c'.data)) == (forwarded + [p]) + Packets(c'.data);
    assert forwarded + ([p] + Forwardable(c')) == (forwarded + [p]) + Forwardable(c');
    FlattenAppend(forwarded, [p]);
    assert Flatten([p]) == p + Flatten([]) == p;
  }

  lemma ProgressBounds(c0: Content, c: Content, forwarded: seq<bytes>)
    requires Progress(c0, c, forwarded)
    ensures FirstOf(forwarded, Packets(c0.data))
    ensures |Flatten(forwarded)| <= |c0.data| && c.data == c0.data[|Flatten(forwarded)|..]
    ensures c.data == [] ==> forwarded == Packets(c0.data) && Leftover(c0.data) == []
    ensures !(HasPacket(c.data) && Fills(c, |FirstPacket(c.data)|)) ==>
              && forwarded == Forwardable(c0)
              && (ShortReadError(c) == PlainEof <==> EndsBetweenPackets(c0))
  {
    assert (forwarded + Packets(c.data))[..|forwarded|] == forwarded;
    assert forwarded + [] == forwarded;
    if HasPacket(c.data) && |FirstPacket(c.data)| == |c.data| {
      assert c.data[|c.data|..] == [];
      assert Leftover(c.data) == Leftover([]) == [];
    }
  }

  datatype Result = ContextDone | EndOfStream | Broken

  lemma PartialWriteOfNothing(received: bytes, stream: bytes)
    ensures PartialWrite(received, received, stream)
  {
  }

  /** What reached the target: nothing, or after a failed write some prefix of the first packet. */
  ghost predicate PartialWrite(before: bytes, after: bytes, stream: bytes) {
    after == before || (HasPacket(stream) && before <= after <= before + FirstPacket(stream))
  }

  lemma NoHeader(c: Content)
    ensures !Fills(c, HEADER_SIZE) ==> !HasPacket(c.data) || !Fills(c, |FirstPacket(c.data)|)
  {
    hide BitOr, Pow2;
  }

  /** With the header in, it is the data that decides whether the whole packet can be delivered. */
  lemma HeaderDecides(c: Content, length: nat)
    requires |c.data| >= HEADER_SIZE && Fills(c, HEADER_SIZE) && length == HeaderLength(c.data)
    ensures Fills(Taken(c, HEADER_SIZE), length) <==>
            HasPacket(c.data) && Fills(c, |FirstPacket(c.data)|)
    ensures HasPacket(c.data) ==> FirstPacket(c.data) == c.data[..HEADER_SIZE + length]
    ensures HasPacket(c.data) <==> HEADER_SIZE + length <= |c.data|
  {
    hide BitOr, Pow2;
  }
}

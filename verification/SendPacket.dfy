/** The mutable record object, its encoder, and the decoder with one reused buffer. */
module SendPacket {
  import opened Bytes
  import opened Codec

  /** `Packets` is the slice `buf[..len]`: it starts at offset 0, so its capacity is `buf.Length`. */
  class SendPacket {
    var datetime: int64
    var connectionId: uint32
    var user: bytes
    var db: bytes
    var addr: bytes
    var state: bytes
    var err: bytes
    var cmd: bytes
    var buf: array<byte>
    var len: nat

    constructor (capacity: nat)
      ensures fresh(buf) && buf.Length == len == capacity
      ensures datetime == 0 && connectionId == 0
      ensures user == db == addr == state == err == cmd == []
    {
      datetime, connectionId := 0, 0;
      user, db, addr, state, err, cmd := [], [], [], [], [], [];
      buf := new byte[capacity](_ => 0);
      len := capacity;
    }

    ghost predicate Valid()
      reads this
    {
      len <= buf.Length
    }

    ghost function Packets(): bytes
      requires Valid()
      reads this, buf
    {
      buf[..len]
    }

    /** The record this object holds now. */
    ghost function View(): Record
      requires Valid()
      reads this, buf
    {
      Record(datetime, connectionId, user, db, addr, state, err, cmd, Packets())
    }
  }

  function Min(a: nat, b: nat): nat {
    if a <= b then a else b
  }

  /** An io.Writer: a failing write may have written any part of what it was given; with a reliable one none fails. */
  class Sink {
    const reliable: bool
    var written: bytes
    /** A write failed. */
    ghost var faulted: bool

    constructor (reliable: bool)
      ensures this.reliable == reliable && written == [] && !faulted
    {
      this.reliable, written, faulted := reliable, [], false;
    }

    method Write(p: bytes) returns (ok: bool)
      modifies this
      ensures faulted == (old(faulted) || !ok) && (reliable ==> ok)
      ensures if ok then written == old(written) + p else written <= old(written) + p && |old(written)| <= |written|
    {
      ok := *;
      ok := ok || reliable;
      var n: nat := |p|;
      if !ok {
        n :| 0 <= n <= |p|;
        faulted := true;
      }
      written := written + p[..n];
    }
  }

  method WriteBytes(w: Sink, b: bytes) returns (ok: bool)
    modifies w
    ensures w.reliable ==> ok
    ensures if ok then w.written == old(w.written) + FieldBytes(b)
            else w.written <= old(w.written) + FieldBytes(b) && |old(w.written)| <= |w.written|
  {
    var len := ToLE(|b| % 0x1_0000_0000, 4);
    ok := w.Write(len);
    if ok {
      ok := w.Write(b);
      Assoc(old(w.written), len, b);
    }
  }

  /** As WriteBytes, for a field followed by the fields `rest`. */
  method WriteField(w: Sink, b: bytes, ghost rest: seq<bytes>, ghost total: bytes) returns (ok: bool)
    requires w.written + EncodeFields([b] + rest) == total
    modifies w
    ensures w.reliable ==> ok
    ensures |old(w.written)| <= |w.written|
    ensures if ok then w.written + EncodeFields(rest) == total else w.written <= total
  {
    hide FieldBytes;
    ok := WriteBytes(w, b);
    assert ([b] + rest)[1..] == rest;
    Assoc(old(w.written), FieldBytes(b), EncodeFields(rest));
  }

  /** The two numbers, ahead of the encoded fields `rest`. */
  method WriteNumbers(w: Sink, datetime: int64, connectionId: uint32, ghost rest: bytes, ghost total: bytes)
    returns (ok: bool)
    requires w.written + (ToLE(TwosComplement(datetime), 8) + (ToLE(connectionId, 4) + rest)) == total
    modifies w
    ensures w.reliable ==> ok
    ensures |old(w.written)| <= |w.written|
    ensures if ok then w.written + rest == total else w.written <= total
  {
    hide ToLE;
    var time, id := ToLE(TwosComplement(datetime), 8), ToLE(connectionId, 4);
    Assoc(w.written, time, id + rest);
    Assoc(w.written + time, id, rest);
    ok := w.Write(time);
    if !ok { return; }
    ok := w.Write(id);
  }

  method WriteNames(w: Sink, user: bytes, db: bytes, addr: bytes, state: bytes, ghost rest: seq<bytes>,
                    ghost total: bytes) returns (ok: bool)
    requires w.written + EncodeFields([user] + ([db] + ([addr] + ([state] + rest)))) == total
    modifies w
    ensures w.reliable ==> ok
    ensures |old(w.written)| <= |w.written|
    ensures if ok then w.written + EncodeFields(rest) == total else w.written <= total
  {
    hide EncodeFields;
    ok := WriteField(w, user, [db] + ([addr] + ([state] + rest)), total);
    if !ok { return; }
    ok := WriteField(w, db, [addr] + ([state] + rest), total);
    if !ok { return; }
    ok := WriteField(w, addr, [state] + rest, total);
    if !ok { return; }
    ok := WriteField(w, state, rest, total);
  }

  method WriteRest(w: Sink, err: bytes, cmd: bytes, packets: bytes, ghost total: bytes) returns (ok: bool)
    requires w.written + EncodeFields([err, cmd, packets]) == total
    modifies w
    ensures w.reliable ==> ok
    ensures |old(w.written)| <= |w.written|
    ensures if ok then w.written == total else w.written <= total
  {
    NoFields();
    hide EncodeFields;
    assert [err] + [cmd, packets] == [err, cmd, packets];
    ok := WriteField(w, err, [cmd, packets], total);
    if !ok { return; }
    assert [cmd] + [packets] == [cmd, packets];
    ok := WriteField(w, cmd, [packets], total);
    if !ok { return; }
    assert [packets] + [] == [packets];
    ok := WriteField(w, packets, [], total);
  }

  /** Writes the whole encoding, or after a failed write some prefix of it. */
  method EncodePacket(w: Sink, bbp: SendPacket) returns (ok: bool)
    requires bbp.Valid()
    modifies w
    ensures w.reliable ==> ok
    ensures if ok then w.written == old(w.written) + Encode(bbp.View())
            else w.written <= old(w.written) + Encode(bbp.View()) && |old(w.written)| <= |w.written|
  {
    ghost var total := w.written + Encode(bbp.View());
    ghost var rest := [bbp.err, bbp.cmd, bbp.Packets()];
    assert bbp.View().Fields() == [bbp.user] + ([bbp.db] + ([bbp.addr] + ([bbp.state] + rest)));
    hide ToLE, EncodeFields;
    ok := WriteNumbers(w, bbp.datetime, bbp.connectionId, EncodeFields(bbp.View().Fields()), total);
    if !ok { return; }
    ok := WriteNames(w, bbp.user, bbp.db, bbp.addr, bbp.state, rest, total);
    if !ok { return; }
    ok := WriteRest(w, bbp.err, bbp.cmd, bbp.buf[..bbp.len], total);
  }

  lemma NoFields()
    ensures EncodeFields([]) == []
  {
  }

  /** An io.Reader over the bytes still to come. */
  class Source {
    var data: bytes
    const reading: Reading

    constructor (data: bytes, reading: Reading)
      ensures this.data == data && this.reading == reading
    {
      this.data, this.reading := data, reading;
    }

    /** How much a Read into a buffer of size `room` returns. */
    function Take(room: nat): nat
      reads this
    {
      Min(room, Min(|data|, if reading.chunk == 0 then 1 else reading.chunk))
    }

    /** One Read, which may return less than is asked for and still to come. */
    method Read(b: array<byte>) returns (n: nat, error: Option<ReadError>)
      requires b.Length > 0
      modifies this, b
      ensures n == old(Take(b.Length)) && data == old(data)[n..] && b[..n] == old(data)[..n]
      ensures error == if old(data) == [] || (reading.eager && data == []) then Some(Eof) else None
    {
      if data == [] {
        return 0, Some(Eof);
      }
      n := Take(b.Length);
      forall i | 0 <= i < n { b[i] := data[i]; }
      data := data[n..];
      error := if reading.eager && data == [] then Some(Eof) else None;
    }

    /** Fills the first `n` bytes of `b`; at the end of the data a shorter part of them is overwritten. */
    method ReadFull(b: array<byte>, n: nat) returns (error: Option<ReadError>)
      requires n <= b.Length
      modifies this, b
      ensures forall i :: n <= i < b.Length ==> b[i] == old(b[i])
      ensures
        match Codec.ReadFull(old(data), n)
        case Got(v, rest) => error == None && b[..n] == v && data == rest
        case Bad(e) => error == Some(e) && data == []
    {
      if n <= |data| {
        forall i | 0 <= i < n { b[i] := data[i]; }
        data := data[n..];
        error := None;
      } else {
        error := Some(if data == [] then Eof else UnexpectedEof);
        forall i | 0 <= i < |data| { b[i] := data[i]; }
        data := [];
      }
    }

    /** binary.Read of a fixed-size number. */
    method ReadNumber(width: nat) returns (n: nat, error: Option<ReadError>)
      modifies this
      ensures
        match Codec.ReadFull(old(data), width)
        case Got(v, rest) => error == None && n == FromLE(v) && n < Pow256(width) && data == rest
        case Bad(e) => error == Some(e) && data == []
    {
      n := 0;
      if width <= |data| {
        n, data, error := FromLE(data[..width]), data[width..], None;
      } else {
        data, error := [], Some(if data == [] then Eof else UnexpectedEof);
      }
    }
  }

  class Decoder {
    var buf: array<byte>
    var len: nat
    const r: Source

    constructor (r: Source)
      ensures this.r == r && fresh(buf) && buf.Length == len == 1024
    {
      this.r := r;
      buf := new byte[1024](_ => 0);
      len := 1024;
    }

    ghost predicate Valid()
      reads this
    {
      len <= buf.Length
    }

    /** The bytes read are `buf[..len]`, which the next call overwrites; the buffer never shrinks. */
    method ReadBytes() returns (error: Option<ReadError>)
      requires Valid()
      modifies this, buf, r
      ensures Valid() && (buf == old(buf) || fresh(buf)) && buf.Length >= old(buf.Length)
      ensures
        match ReadField(old(r.data))
        case Got(v, rest) => error == None && buf[..len] == v && r.data == rest
        case Bad(e) => error == Some(e) && r.data == []
    {
      var n;
      n, error := r.ReadNumber(4);
      if error.Some? { return; }
      if buf.Length < n {
        buf := new byte[n](_ => 0);
      }
      len := n;
      error := r.ReadFull(buf, len);
    }

    /** As ReadBytes, for the first of `n` fields, after the fields `read` have been taken off the stream. */
    method ReadNext(ghost read: seq<bytes>, ghost n: nat) returns (data: bytes, error: Option<ReadError>)
      requires Valid() && n > 0
      modifies this, buf, r
      ensures Valid() && (buf == old(buf) || fresh(buf)) && buf.Length >= old(buf.Length)
      ensures error == None ==> data == buf[..len]
      ensures Resume(read, DecodeFields(old(r.data), n)) ==
              if error == None then Resume(read + [data], DecodeFields(r.data, n - 1)) else Bad(error.value)
    {
      ResumeNext(read, r.data, n);
      error := ReadBytes();
      data := if error == None then buf[..len] else [];
    }

    method DecodeNames(bbp: SendPacket) returns (error: Option<ReadError>)
      requires Valid()
      modifies this, buf, r, bbp
      ensures Valid() && (buf == old(buf) || fresh(buf)) && buf.Length >= old(buf.Length)
      ensures bbp.datetime == old(bbp.datetime) && bbp.connectionId == old(bbp.connectionId)
      ensures Resume([], DecodeFields(old(r.data), 7)) ==
              if error.Some? then Bad(error.value)
              else Resume([] + [bbp.user] + [bbp.db] + [bbp.addr] + [bbp.state], DecodeFields(r.data, 3))
    {
      hide DecodeFields, Resume;
      var data;
      data, error := ReadNext([], 7);
      if error.Some? { return; }
      bbp.user := data;
      data, error := ReadNext([] + [bbp.user], 6);
      if error.Some? { return; }
      bbp.db := data;
      data, error := ReadNext([] + [bbp.user] + [bbp.db], 5);
      if error.Some? { return; }
      bbp.addr := data;
      data, error := ReadNext([] + [bbp.user] + [bbp.db] + [bbp.addr], 4);
      if error.Some? { return; }
      bbp.state := data;
    }

    method DecodeRest(bbp: SendPacket, ghost names: seq<bytes>) returns (error: Option<ReadError>)
      requires Valid()
      modifies this, buf, r, bbp
      ensures Valid() && (buf == old(buf) || fresh(buf)) && buf.Length >= old(buf.Length)
      ensures bbp.datetime == old(bbp.datetime) && bbp.connectionId == old(bbp.connectionId)
      ensures bbp.user == old(bbp.user) && bbp.db == old(bbp.db)
      ensures bbp.addr == old(bbp.addr) && bbp.state == old(bbp.state)
      ensures error == None ==> bbp.buf == buf && bbp.len == len
      ensures Resume(names, DecodeFields(old(r.data), 3)) ==
              if error.Some? then Bad(error.value)
              else Resume(names + [bbp.err] + [bbp.cmd] + [buf[..len]], DecodeFields(r.data, 0))
    {
      hide DecodeFields, Resume;
      var data;
      data, error := ReadNext(names, 3);
      if error.Some? { return; }
      bbp.err := data;
      data, error := ReadNext(names + [bbp.err], 2);
      if error.Some? { return; }
      bbp.cmd := data;
      data, error := ReadNext(names + [bbp.err] + [bbp.cmd], 1);
      if error.Some? { return; }
      bbp.buf, bbp.len := buf, len;
    }

    /**
     * Either the next record of the stream, whole, in the fields of `bbp`, with `Packets` sharing this decoder's
     * buffer; or the error decoding the stream fails with.
     */
    method DecodePacket(bbp: SendPacket) returns (error: Option<ReadError>)
      requires Valid()
      modifies this, buf, r, bbp
      ensures Valid() && (buf == old(buf) || fresh(buf)) && buf.Length >= old(buf.Length)
      ensures
        match Decode(old(r.data))
        case Got(record, rest) =>
          error == None && bbp.buf == buf && bbp.Valid() && bbp.View() == record && r.data == rest
        case Bad(e) => error == Some(e)
    {
      hide FromLE, Pow256, DecodeFields, Resume;
      Pow256Values();
      var n;
      n, error := r.ReadNumber(8);
      if error.Some? { return; }
      bbp.datetime := FromTwosComplement(n);
      n, error := r.ReadNumber(4);
      if error.Some? { return; }
      bbp.connectionId := n;
      ghost var s := r.data;
      ResumeFromNothing(DecodeFields(s, 7));
      error := DecodeNames(bbp);
      if error.Some? { return; }
      ghost var names := [] + [bbp.user] + [bbp.db] + [bbp.addr] + [bbp.state];
      error := DecodeRest(bbp, names);
      if error.Some? { return; }
      SevenFields(s, r.data, bbp.user, bbp.db, bbp.addr, bbp.state, bbp.err, bbp.cmd, bbp.buf[..bbp.len]);
    }
  }

  /** What reading the remaining fields gives, once the fields `read` are put before them. */
  ghost function Resume(read: seq<bytes>, p: Parsed<seq<bytes>>): Parsed<seq<bytes>> {
    match p
    case Bad(e) => Bad(e)
    case Got(fs, rest) => Got(read + fs, rest)
  }

  lemma ResumeNext(read: seq<bytes>, s: bytes, n: nat)
    requires n > 0
    ensures Resume(read, DecodeFields(s, n)) ==
            match ReadField(s)
            case Bad(e) => Bad(e)
            case Got(b, rest) => Resume(read + [b], DecodeFields(rest, n - 1))
  {
    match ReadField(s)
    case Bad(_) =>
    case Got(b, rest) =>
      var p := DecodeFields(rest, n - 1);
      if p.Got? {
        assert read + ([b] + p.value) == read + [b] + p.value;
      }
  }

  lemma ResumeFromNothing(p: Parsed<seq<bytes>>)
    ensures Resume([], p) == p
  {
    assert p.Got? ==> [] + p.value == p.value;
  }

  lemma SevenFields(s: bytes, rest: bytes, f0: bytes, f1: bytes, f2: bytes, f3: bytes, f4: bytes, f5: bytes, f6: bytes)
    requires DecodeFields(s, 7) ==
             Resume([] + [f0] + [f1] + [f2] + [f3] + [f4] + [f5] + [f6], DecodeFields(rest, 0))
    ensures DecodeFields(s, 7) == Got([f0, f1, f2, f3, f4, f5, f6], rest)
  {
    var read := [] + [f0] + [f1] + [f2] + [f3] + [f4] + [f5] + [f6];
    assert read + [] == read == [f0, f1, f2, f3, f4, f5, f6];
  }
}

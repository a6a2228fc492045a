/** The audit record and its binary form, as values. */
module Codec {
  import opened Bytes

  /** How reading a fixed number of bytes fails at the end of a stream. */
  datatype ReadError = Eof | UnexpectedEof

  /**
   * How a reader hands out its bytes: at most `chunk` of them in one read, but at least one; an eager one reports the
   * end of the stream along with the last of them, and not only at the next read.
   */
  datatype Reading = Reading(chunk: nat, eager: bool)

  /** A value read from the front of a stream, with the bytes left behind it. */
  datatype Parsed<+T> = Got(value: T, rest: bytes) | Bad(error: ReadError) {
    predicate IsFailure() { Bad? }

    function PropagateFailure<U>(): Parsed<U>
      requires Bad?
    {
      Bad(error)
    }

    function Extract(): (T, bytes)
      requires Got?
    {
      (value, rest)
    }
  }

  datatype Record = Record(datetime: int64, connectionId: uint32, user: bytes, db: bytes, addr: bytes,
                           state: bytes, err: bytes, cmd: bytes, packets: bytes)
  {
    /** The variable-length fields, in the order they are written. */
    function Fields(): (fs: seq<bytes>)
      ensures |fs| == FIELD_COUNT
    {
      [user, db, addr, state, err, cmd, packets]
    }

    /** Every length fits the 32-bit length prefix. */
    predicate Fits() {
      AllShort(Fields())
    }
  }

  const FIELD_COUNT: nat := 7

  predicate AllShort(fs: seq<bytes>) {
    forall i :: 0 <= i < |fs| ==> |fs[i]| < 0x1_0000_0000
  }

  // Encoding

  function FieldBytes(b: bytes): bytes {
    ToLE(|b| % 0x1_0000_0000, 4) + b
  }

  function EncodeFields(fs: seq<bytes>): (b: bytes)
    ensures |b| >= 4 * |fs|
  {
    if fs == [] then [] else FieldBytes(fs[0]) + EncodeFields(fs[1..])
  }

  function Encode(r: Record): (b: bytes)
    ensures |b| >= 12
  {
    ToLE(TwosComplement(r.datetime), 8) + (ToLE(r.connectionId, 4) + EncodeFields(r.Fields()))
  }

  function EncodeAll(rs: seq<Record>): bytes {
    if rs == [] then [] else Encode(rs[0]) + EncodeAll(rs[1..])
  }

  // Decoding

  /** io.ReadFull: all of `n` bytes, or the error that tells nothing from something. */
  function ReadFull(s: bytes, n: nat): Parsed<bytes> {
    if n <= |s| then Got(s[..n], s[n..]) else Bad(if s == [] then Eof else UnexpectedEof)
  }

  function ReadField(s: bytes): Parsed<bytes> {
    var (len, s) :- ReadFull(s, 4);
    ReadFull(s, FromLE(len))
  }

  function DecodeFields(s: bytes, n: nat): (p: Parsed<seq<bytes>>)
    ensures p.Got? ==> |p.value| == n && |p.rest| <= |s|
  {
    if n == 0 then Got([], s) else
    var (f, s) :- ReadField(s);
    var (fs, s) :- DecodeFields(s, n - 1);
    Got([f] + fs, s)
  }

  function Decode(s: bytes): (p: Parsed<Record>)
    ensures p.Got? ==> |p.rest| < |s|
  {
    var (time, s) :- ReadFull(s, 8);
    var (id, s) :- ReadFull(s, 4);
    var (fs, s) :- DecodeFields(s, FIELD_COUNT);
    Pow256Values();
    Got(Record(FromTwosComplement(FromLE(time)), FromLE(id), fs[0], fs[1], fs[2], fs[3], fs[4], fs[5], fs[6]), s)
  }

  // Round trips

  lemma Assoc(a: bytes, b: bytes, c: bytes)
    ensures a + (b + c) == (a + b) + c
  {
  }

  lemma ReadFullAppended(b: bytes, rest: bytes)
    ensures ReadFull(b + rest, |b|) == Got(b, rest)
  {
    assert (b + rest)[..|b|] == b && (b + rest)[|b|..] == rest;
  }

  lemma ReadFieldOfField(b: bytes, rest: bytes)
    requires |b| < 0x1_0000_0000
    ensures ReadField(FieldBytes(b) + rest) == Got(b, rest)
  {
    hide ToLE, FromLE;
    Pow256Values();
    FromToLE(|b|, 4);
    Assoc(ToLE(|b|, 4), b, rest);
    ReadFullAppended(ToLE(|b|, 4), b + rest);
    ReadFullAppended(b, rest);
  }

  lemma ReadFullConsumes(s: bytes, n: nat)
    ensures
      match ReadFull(s, n)
      case Got(b, rest) => |b| == n && s == b + rest
      case Bad(_) => |s| < n
  {
  }

  lemma ReadFieldConsumes(s: bytes)
    ensures
      match ReadField(s)
      case Got(b, rest) => |b| < 0x1_0000_0000 && s == FieldBytes(b) + rest
      case Bad(_) => true
  {
    hide ToLE, FromLE;
    ReadFullConsumes(s, 4);
    match ReadFull(s, 4)
    case Bad(_) =>
    case Got(len, s') =>
      Pow256Values();
      ToFromLE(len);
      ReadFullConsumes(s', FromLE(len));
      match ReadFull(s', FromLE(len))
      case Bad(_) =>
      case Got(b, rest) => Assoc(len, b, rest);
  }

  lemma {:induction false} DecodeFieldsOfEncode(fs: seq<bytes>, rest: bytes)
    requires AllShort(fs)
    ensures DecodeFields(EncodeFields(fs) + rest, |fs|) == Got(fs, rest)
  {
    hide FieldBytes, ReadField;
    if fs == [] {
      assert [] + rest == rest;
    } else {
      var tail := EncodeFields(fs[1..]) + rest;
      Assoc(FieldBytes(fs[0]), EncodeFields(fs[1..]), rest);
      ReadFieldOfField(fs[0], tail);
      DecodeFieldsOfEncode(fs[1..], rest);
      assert fs == [fs[0]] + fs[1..];
    }
  }

  lemma {:induction false} DecodeFieldsConsumes(s: bytes, n: nat)
    ensures
      match DecodeFields(s, n)
      case Got(fs, rest) => AllShort(fs) && s == EncodeFields(fs) + rest
      case Bad(_) => true
    decreases n
  {
    hide FieldBytes, ReadField;
    if n == 0 {
      assert [] + s == s;
    } else {
      ReadFieldConsumes(s);
      var p := ReadField(s);
      if p.Got? {
        DecodeFieldsConsumes(p.rest, n - 1);
        var q := DecodeFields(p.rest, n - 1);
        if q.Got? {
          assert ([p.value] + q.value)[1..] == q.value;
          Assoc(FieldBytes(p.value), EncodeFields(q.value), q.rest);
        }
      }
    }
  }

  lemma DecodeOfEncode(r: Record, rest: bytes)
    requires r.Fits()
    ensures Decode(Encode(r) + rest) == Got(r, rest)
  {
    hide ToLE, FromLE, EncodeFields, DecodeFields;
    var time, id := ToLE(TwosComplement(r.datetime), 8), ToLE(r.connectionId, 4);
    var fields := EncodeFields(r.Fields());
    Pow256Values();
    FromToLE(TwosComplement(r.datetime), 8);
    FromToLE(r.connectionId, 4);
    Assoc(time, id + fields, rest);
    Assoc(id, fields, rest);
    ReadFullAppended(time, id + (fields + rest));
    ReadFullAppended(id, fields + rest);
    DecodeFieldsOfEncode(r.Fields(), rest);
  }

  /** What is accepted is exactly what encoding the result writes. */
  lemma DecodeConsumes(s: bytes)
    ensures
      match Decode(s)
      case Got(r, rest) => r.Fits() && s == Encode(r) + rest
      case Bad(_) => true
  {
    hide ToLE, FromLE, EncodeFields, DecodeFields;
    if Decode(s).Got? {
      var s1, s2 := s[8..], s[8..][4..];
      var fs, rest := DecodeFields(s2, FIELD_COUNT).value, Decode(s).rest;
      var r := Decode(s).value;
      assert r.Fields() == fs;
      Pow256Values();
      ToFromLE(s[..8]);
      ToFromLE(s1[..4]);
      DecodeFieldsConsumes(s2, FIELD_COUNT);
      assert s == s[..8] + s1 && s1 == s1[..4] + s2;
      Assoc(s[..8], s1[..4] + EncodeFields(fs), rest);
      Assoc(s1[..4], EncodeFields(fs), rest);
    }
  }

  /** Decoding undoes encoding, whatever follows, for exactly the records whose lengths fit. */
  lemma RoundTripIffFits(r: Record, rest: bytes)
    ensures Decode(Encode(r) + rest) == Got(r, rest) <==> r.Fits()
  {
    if r.Fits() {
      DecodeOfEncode(r, rest);
    } else {
      DecodeConsumes(Encode(r) + rest);
    }
  }

  // The bytes, one after the other

  /** `b` has a field at `o`: four bytes of its length, the lowest first, and then the field. */
  predicate FieldAt(b: bytes, o: nat, f: bytes) {
    && o + 4 + |f| <= |b|
    && Number(b[o], b[o + 1], b[o + 2], b[o + 3]) == |f|
    && b[o + 4..o + 4 + |f|] == f
  }

  /** From `o` to its end, `b` has these fields. */
  predicate FieldsAt(b: bytes, o: nat, fs: seq<bytes>)
    decreases |fs|
  {
    if fs == [] then o == |b| else FieldAt(b, o, fs[0]) && FieldsAt(b, o + 4 + |fs[0]|, fs[1..])
  }

  /** The eight bytes of `time` are a number in two's complement, the lowest byte first. */
  predicate IsTime(time: bytes, t: int64) {
    && |time| == 8
    && (Number(time[0], time[1], time[2], time[3]) +
        0x1_0000_0000 * Number(time[4], time[5], time[6], time[7]) - t) % 0x1_0000_0000_0000_0000 == 0
  }

  /** The time, the connection id, and the fields in this order. */
  predicate LaidOut(b: bytes, r: Record) {
    && |b| >= 12 && IsTime(b[..8], r.datetime)
    && Number(b[8], b[9], b[10], b[11]) == r.connectionId
    && FieldsAt(b, 12, [r.user, r.db, r.addr, r.state, r.err, r.cmd, r.packets])
  }

  lemma IdBytes(id: uint32)
    ensures var b := ToLE(id, 4); Number(b[0], b[1], b[2], b[3]) == id
  {
    Pow256Values();
    FromToLE(id, 4);
    FourBytes(ToLE(id, 4));
  }

  lemma FieldIsAt(before: bytes, f: bytes, after: bytes)
    requires |f| < 0x1_0000_0000
    ensures FieldAt(before + (FieldBytes(f) + after), |before|, f)
    ensures |FieldBytes(f)| == 4 + |f|
  {
    hide ToLE, Number, FieldBytes;
    IdBytes(|f|);
    ShortFieldBytes(f);
    Behind(before, ToLE(|f|, 4), f, after);
  }

  lemma ShortFieldBytes(f: bytes)
    requires |f| < 0x1_0000_0000
    ensures FieldBytes(f) == ToLE(|f|, 4) + f
  {
    hide ToLE;
    Unwrapped(|f|);
  }

  lemma Unwrapped(n: nat)
    requires n < 0x1_0000_0000
    ensures n % 0x1_0000_0000 == n
  {
  }

  lemma Behind(before: bytes, len: bytes, f: bytes, after: bytes)
    requires |len| == 4
    ensures
      var b := before + ((len + f) + after);
      && b[|before| + 4..|before| + 4 + |f|] == f
      && b[|before|] == len[0] && b[|before| + 1] == len[1] && b[|before| + 2] == len[2] && b[|before| + 3] == len[3]
  {
    var b, o := before + ((len + f) + after), |before|;
    assert b[o..] == (len + f) + after;
    assert b[o..][..4] == len;
    assert b[o..][0] == b[o] && b[o..][1] == b[o + 1] && b[o..][2] == b[o + 2] && b[o..][3] == b[o + 3];
    assert b[o + 4..] == b[o..][4..] == f + after;
  }

  lemma {:induction false} EncodedFieldsAre(before: bytes, fs: seq<bytes>)
    requires AllShort(fs)
    ensures FieldsAt(before + EncodeFields(fs), |before|, fs)
    decreases |fs|
  {
    hide FieldBytes, FieldAt;
    if fs == [] {
      assert before + [] == before;
    } else {
      FieldIsAt(before, fs[0], EncodeFields(fs[1..]));
      Assoc(before, FieldBytes(fs[0]), EncodeFields(fs[1..]));
      EncodedFieldsAre(before + FieldBytes(fs[0]), fs[1..]);
    }
  }

  lemma EightBytes(b: bytes)
    requires |b| == 8
    ensures FromLE(b) == Number(b[0], b[1], b[2], b[3]) + 0x1_0000_0000 * Number(b[4], b[5], b[6], b[7])
  {
    var b1, b2, b3, b4 := b[1..], b[1..][1..], b[1..][1..][1..], b[4..];
    FourBytes(b4);
    assert b3[1..] == b4;
    assert FromLE(b3) == b[3] + 0x100 * FromLE(b4);
    assert FromLE(b2) == b[2] + 0x100 * FromLE(b3);
    assert FromLE(b1) == b[1] + 0x100 * FromLE(b2);
  }

  lemma TimeBytes(t: int64)
    ensures IsTime(ToLE(TwosComplement(t), 8), t)
  {
    Pow256Values();
    FromToLE(TwosComplement(t), 8);
    EightBytes(ToLE(TwosComplement(t), 8));
    hide ToLE, FromLE, Number, TwosComplement;
  }

  /** An encoding is laid out so. */
  lemma EncodingIsLaidOut(r: Record)
    requires r.Fits()
    ensures LaidOut(Encode(r), r)
  {
    var time, id := ToLE(TwosComplement(r.datetime), 8), ToLE(r.connectionId, 4);
    var b, fs := Encode(r), r.Fields();
    TimeBytes(r.datetime);
    IdBytes(r.connectionId);
    EncodedFieldsAre(time + id, fs);
    hide ToLE, FromLE, TwosComplement, EncodeFields, FieldAt, FieldsAt, Number, IsTime;
    Assoc(time, id, EncodeFields(fs));
    assert b[..8] == time;
    assert b[8] == id[0] && b[9] == id[1] && b[10] == id[2] && b[11] == id[3];
  }

  /** And what is accepted as a record is laid out so in front of the rest. */
  lemma AcceptedIsLaidOut(s: bytes)
    ensures
      match Decode(s)
      case Got(r, rest) => |rest| <= |s| && LaidOut(s[..|s| - |rest|], r)
      case Bad(_) => true
  {
    DecodeConsumes(s);
    hide Encode, Decode, LaidOut;
    match Decode(s)
    case Bad(_) =>
    case Got(r, rest) =>
      EncodingIsLaidOut(r);
      assert s[..|s| - |rest|] == Encode(r);
  }

  // Streams of records

  /** Every record up to the first failed decode, with the error it failed with. */
  function DecodeAll(s: bytes): (seq<Record>, ReadError)
    decreases |s|
  {
    match Decode(s)
    case Bad(e) => ([], e)
    case Got(r, rest) =>
      var (rs, e) := DecodeAll(rest);
      ([r] + rs, e)
  }

  predicate AllFit(rs: seq<Record>) {
    forall i :: 0 <= i < |rs| ==> rs[i].Fits()
  }

  lemma EncodeAllAppend(a: seq<Record>, b: seq<Record>)
    ensures EncodeAll(a + b) == EncodeAll(a) + EncodeAll(b)
  {
    hide Encode;
    if a == [] {
      assert a + b == b;
    } else {
      EncodeAllAppend(a[1..], b);
      assert (a + b)[1..] == a[1..] + b;
      Assoc(Encode(a[0]), EncodeAll(a[1..]), EncodeAll(b));
    }
  }

  /** No proper prefix of an encoding decodes. */
  lemma PrefixDoesNotDecode(r: Record, k: nat)
    requires r.Fits() && k < |Encode(r)|
    ensures Decode(Encode(r)[..k]).Bad?
  {
    hide Encode, Decode;
    var p := Encode(r)[..k];
    if Decode(p).Got? {
      DecodeConsumes(p);
      var r', rest := Decode(p).value, Decode(p).rest;
      var tail := rest + Encode(r)[k..];
      Assoc(Encode(r'), rest, Encode(r)[k..]);
      assert Encode(r) == Encode(r') + tail;
      DecodeOfEncode(r', tail);
      assert Encode(r) == Encode(r) + [];
      DecodeOfEncode(r, []);
      assert false;
    }
  }

  lemma EncodeAllOne(r: Record)
    ensures EncodeAll([r]) == Encode(r)
  {
    assert EncodeAll([r]) == Encode(r) + EncodeAll([]);
  }

  lemma EncodeAllTake(rs: seq<Record>, j: nat)
    requires 0 < j <= |rs|
    ensures EncodeAll(rs[..j]) == Encode(rs[0]) + EncodeAll(rs[1..][..j - 1])
  {
    assert rs[..j][1..] == rs[1..][..j - 1];
  }

  lemma DecodeNothing()
    ensures Decode([]) == Bad(Eof)
  {
  }

  lemma DecodeAllStep(r: Record, s: bytes)
    requires r.Fits()
    ensures DecodeAll(Encode(r) + s) == ([r] + DecodeAll(s).0, DecodeAll(s).1)
  {
    DecodeOfEncode(r, s);
  }

  /** The first `j` records, and no more, are whole within the first `k` bytes of the stream. */
  ghost predicate WholeWithin(rs: seq<Record>, k: nat, j: nat) {
    && j <= |rs|
    && |EncodeAll(rs[..j])| <= k
    && (j < |rs| ==> k < |EncodeAll(rs[..j + 1])|)
  }

  lemma CutInFirst(rs: seq<Record>, k: nat)
    requires AllFit(rs) && rs != [] && k < |Encode(rs[0])|
    ensures WholeWithin(rs, k, 0)
    ensures k <= |EncodeAll(rs)| && DecodeAll(EncodeAll(rs)[..k]).0 == []
    ensures k == 0 ==> DecodeAll(EncodeAll(rs)[..k]).1 == Eof
  {
    hide Encode, Decode;
    assert EncodeAll(rs)[..k] == Encode(rs[0])[..k];
    PrefixDoesNotDecode(rs[0], k);
    DecodeNothing();
    EncodeAllOne(rs[0]);
    assert rs[..1] == [rs[0]];
  }

  lemma CutAfterFirst(rs: seq<Record>, k: nat, j: nat)
    requires rs != [] && |Encode(rs[0])| <= k && WholeWithin(rs[1..], k - |Encode(rs[0])|, j)
    ensures WholeWithin(rs, k, j + 1)
  {
    hide Encode, Decode;
    EncodeAllTake(rs, j + 1);
    if j + 1 < |rs| {
      EncodeAllTake(rs, j + 2);
    }
  }

  /**
   * Cutting an encoded stream after any `k` bytes loses the record the cut falls in and those behind it, invents
   * none, and ends in a plain end-of-file error when the cut falls between records.
   */
  lemma {:induction false} TruncationSafe(rs: seq<Record>, k: nat) returns (j: nat)
    requires AllFit(rs) && k <= |EncodeAll(rs)|
    ensures WholeWithin(rs, k, j)
    ensures DecodeAll(EncodeAll(rs)[..k]).0 == rs[..j]
    ensures k == |EncodeAll(rs[..j])| ==> DecodeAll(EncodeAll(rs)[..k]).1 == Eof
  {
    hide Encode, Decode;
    if rs == [] {
      j := 0;
      DecodeNothing();
    } else if k < |Encode(rs[0])| {
      j := 0;
      CutInFirst(rs, k);
    } else {
      var k' := k - |Encode(rs[0])|;
      var s' := EncodeAll(rs[1..])[..k'];
      j := TruncationSafe(rs[1..], k');
      CutAfterFirst(rs, k, j);
      assert EncodeAll(rs)[..k] == Encode(rs[0]) + s';
      DecodeAllStep(rs[0], s');
      EncodeAllTake(rs, j + 1);
      j := j + 1;
      assert rs[..j] == [rs[0]] + rs[1..][..j - 1];
    }
  }

  lemma {:induction false} DecodeAllOfEncodeAll(rs: seq<Record>)
    requires AllFit(rs)
    ensures DecodeAll(EncodeAll(rs)) == (rs, Eof)
  {
    hide Encode, Decode;
    DecodeNothing();
    if rs != [] {
      DecodeAllOfEncodeAll(rs[1..]);
      DecodeAllStep(rs[0], EncodeAll(rs[1..]));
      assert rs == [rs[0]] + rs[1..];
    }
  }

  /** Whatever the bytes, the records read are those whose encodings were consumed; reading stops at the rest. */
  lemma {:induction false} DecodeAllConsumes(s: bytes) returns (rest: bytes)
    ensures AllFit(DecodeAll(s).0)
    ensures s == EncodeAll(DecodeAll(s).0) + rest
    ensures Decode(rest) == Bad(DecodeAll(s).1)
    decreases |s|
  {
    hide Encode, Decode;
    match Decode(s)
    case Bad(e) =>
      rest := s;
    case Got(r, s') =>
      DecodeConsumes(s);
      rest := DecodeAllConsumes(s');
      var rs := DecodeAll(s').0;
      assert ([r] + rs)[1..] == rs;
      Assoc(Encode(r), EncodeAll(rs), rest);
  }

  /** A byte stream is the encoding of at most one list of records. */
  lemma EncodingsAreUnique(a: seq<Record>, b: seq<Record>)
    requires AllFit(a) && AllFit(b) && EncodeAll(a) == EncodeAll(b)
    ensures a == b
  {
    DecodeAllOfEncodeAll(a);
    DecodeAllOfEncodeAll(b);
  }

  // What a cut stream ends in

  /** A read of one of the fields, or of its length, starts `o` bytes into them; an empty field is not read. */
  predicate ReadStartInFields(fs: seq<bytes>, o: nat) {
    fs != [] &&
    var size := 4 + |fs[0]|;
    o == 0 || (o == 4 && fs[0] != []) || (o >= size && ReadStartInFields(fs[1..], o - size))
  }

  /** A read of decoding `r` starts `o` bytes into its encoding. */
  predicate ReadStart(r: Record, o: nat) {
    o == 0 || o == 8 || (o >= 12 && ReadStartInFields(r.Fields(), o - 12))
  }

  /** A field cut after `o` bytes gives a plain end-of-file error exactly where one of its two reads starts. */
  lemma FieldCut(f: bytes, o: nat)
    requires |f| < 0x1_0000_0000 && o < 4 + |f|
    ensures ReadField(FieldBytes(f)[..o]) == Bad(if o == 0 || o == 4 then Eof else UnexpectedEof)
  {
    hide ToLE, FromLE;
    var len := ToLE(|f|, 4);
    Pow256Values();
    FromToLE(|f|, 4);
    if o < 4 {
      assert FieldBytes(f)[..o] == len[..o];
    } else {
      assert FieldBytes(f)[..o] == len + f[..o - 4];
      ReadFullAppended(len, f[..o - 4]);
    }
  }

  lemma {:induction false} FieldsCut(fs: seq<bytes>, o: nat)
    requires AllShort(fs) && o < |EncodeFields(fs)|
    ensures DecodeFields(EncodeFields(fs)[..o], |fs|)
         == Bad(if ReadStartInFields(fs, o) then Eof else UnexpectedEof)
  {
    hide FieldBytes, ReadField;
    var size := 4 + |fs[0]|;
    assert |FieldBytes(fs[0])| == size by { FieldSize(fs[0]); }
    if o < size {
      FieldCut(fs[0], o);
      assert EncodeFields(fs)[..o] == FieldBytes(fs[0])[..o];
    } else {
      var rest := EncodeFields(fs[1..])[..o - size];
      FieldsCut(fs[1..], o - size);
      ReadFieldOfField(fs[0], rest);
      assert EncodeFields(fs)[..o] == FieldBytes(fs[0]) + rest;
    }
  }

  lemma FieldSize(f: bytes)
    ensures |FieldBytes(f)| == 4 + |f|
  {
  }

  /** A record cut short gives a plain end-of-file error exactly when the cut falls where a read starts. */
  lemma RecordCut(r: Record, o: nat)
    requires r.Fits() && o < |Encode(r)|
    ensures Decode(Encode(r)[..o]) == Bad(if ReadStart(r, o) then Eof else UnexpectedEof)
  {
    hide ToLE, FromLE, EncodeFields, DecodeFields, ReadStartInFields;
    var time, id := ToLE(TwosComplement(r.datetime), 8), ToLE(r.connectionId, 4);
    var fields := EncodeFields(r.Fields());
    var s := Encode(r)[..o];
    if o < 8 {
    } else if o < 12 {
      assert s[8..] == id[..o - 8];
    } else {
      FieldsCut(r.Fields(), o - 12);
      assert s[8..] == id + fields[..o - 12];
      assert s[8..][4..] == fields[..o - 12];
    }
  }

  /** Where the cut falls: behind all records, or in record `j` where one of its reads starts. */
  predicate CutAtRead(rs: seq<Record>, k: nat, j: nat) {
    j == |rs| || (j < |rs| && |EncodeAll(rs[..j])| <= k && ReadStart(rs[j], k - |EncodeAll(rs[..j])|))
  }

  lemma DecodeAllBad(s: bytes, e: ReadError)
    requires Decode(s) == Bad(e)
    ensures DecodeAll(s) == ([], e)
  {
    hide Decode;
  }

  lemma CutInFirstEnds(rs: seq<Record>, k: nat)
    requires AllFit(rs) && rs != [] && k < |Encode(rs[0])|
    ensures k <= |EncodeAll(rs)|
    ensures DecodeAll(EncodeAll(rs)[..k]).1 == if CutAtRead(rs, k, 0) then Eof else UnexpectedEof
  {
    hide Encode, Decode, ReadStart;
    assert EncodeAll(rs)[..k] == Encode(rs[0])[..k];
    RecordCut(rs[0], k);
    DecodeAllBad(Encode(rs[0])[..k], if ReadStart(rs[0], k) then Eof else UnexpectedEof);
    assert rs[..0] == [];
  }

  lemma CutAtReadAfterFirst(rs: seq<Record>, k: nat, j: nat)
    requires rs != [] && |Encode(rs[0])| <= k && j < |rs|
    ensures CutAtRead(rs, k, j + 1) == CutAtRead(rs[1..], k - |Encode(rs[0])|, j)
  {
    hide Encode, ReadStart;
    EncodeAllTake(rs, j + 1);
  }

  lemma NoneWhole(rs: seq<Record>, k: nat, j: nat)
    requires rs != [] && k < |Encode(rs[0])| && WholeWithin(rs, k, j)
    ensures j == 0
  {
    hide Encode;
    if j > 0 {
      EncodeAllTake(rs, j);
    }
  }

  lemma WholeBehindFirst(rs: seq<Record>, k: nat, j: nat)
    requires rs != [] && |Encode(rs[0])| <= k && WholeWithin(rs, k, j)
    ensures j > 0 && WholeWithin(rs[1..], k - |Encode(rs[0])|, j - 1)
    ensures EncodeAll(rs[..j]) == Encode(rs[0]) + EncodeAll(rs[1..][..j - 1])
  {
    hide Encode;
    EncodeAllOne(rs[0]);
    assert rs[..1] == [rs[0]];
    if j > 0 {
      EncodeAllTake(rs, j);
      if j < |rs| {
        EncodeAllTake(rs, j + 1);
      }
    }
  }

  /**
   * For every cut: with `j` the number of records that are whole before it, the error is a plain end of file exactly
   * when the cut falls between records or where a read of record `j` starts.
   */
  lemma {:induction false} CutEndsPlainlyIff(rs: seq<Record>, k: nat, j: nat)
    requires AllFit(rs) && k <= |EncodeAll(rs)| && WholeWithin(rs, k, j)
    ensures DecodeAll(EncodeAll(rs)[..k]).1 == if CutAtRead(rs, k, j) then Eof else UnexpectedEof
    ensures k == |EncodeAll(rs[..j])| ==> CutAtRead(rs, k, j)
  {
    hide Encode, Decode, ReadStartInFields;
    if rs == [] {
      DecodeNothing();
      DecodeAllBad([], Eof);
    } else if k < |Encode(rs[0])| {
      NoneWhole(rs, k, j);
      CutInFirstEnds(rs, k);
    } else {
      WholeBehindFirst(rs, k, j);
      var k', s' := k - |Encode(rs[0])|, EncodeAll(rs[1..])[..k - |Encode(rs[0])|];
      CutEndsPlainlyIff(rs[1..], k', j - 1);
      CutAtReadAfterFirst(rs, k, j - 1);
      assert EncodeAll(rs)[..k] == Encode(rs[0]) + s';
      DecodeAllStep(rs[0], s');
    }
  }
}

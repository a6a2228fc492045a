/** The audit log files: rotation, the writer that fills them, and opening one to read it back. */
module AuditLog {
  import opened Bytes
  import opened Codec
  import opened Template

  type Path = string

  /** The file header: its last two characters are a backslash and an n. */
  const VERSION: bytes := Ascii("{\"format\":\"mysqlproxy-v1.00\"}\\n")

  lemma VersionBytes()
    ensures VERSION == [123, 34, 102, 111, 114, 109, 97, 116, 34, 58, 34, 109, 121, 115, 113, 108, 112, 114, 111, 120,
                        121, 45, 118, 49, 46, 48, 48, 34, 125, 92, 110]
  {
    var text := "{\"format\":\"mysqlproxy-v1.00\"}\\n";
    assert |text| == 31 && VERSION == Ascii(text);
  }

  /**
   * The decompressed contents of the closed gzip members of each file, read as one stream (section 2.2 of RFC 1952),
   * and the member that is open for writing at the end of the file `path`.
   */
  datatype Log = Log(files: map<Path, bytes>, path: Path, member: Option<bytes>) {
    predicate Open() {
      member.Some? && path in files
    }

    /** What reading `p` would give if the open member were closed. */
    function Content(p: Path): bytes
      requires p in files
    {
      files[p] + (if member.Some? && p == path then member.value else [])
    }
  }

  function Created(l: Log, p: Path): Log {
    if p in l.files then Log(l.files, p, Some([])) else Log(l.files[p := []], p, Some(VERSION))
  }

  function Closed(l: Log): Log
    requires l.member.Some? ==> l.path in l.files
  {
    if l.member == None then l
    else Log(l.files[l.path := l.files[l.path] + l.member.value], l.path, None)
  }

  function Appended(l: Log, r: Record): Log
    requires l.Open()
  {
    l.(member := Some(l.member.value + Encode(r)))
  }

  datatype LogEvent = Write(record: Record) | Rotate(path: Path)

  function Apply(l: Log, e: LogEvent): (l': Log)
    requires l.Open()
    ensures l'.Open()
  {
    match e
    case Write(r) => Appended(l, r)
    case Rotate(p) => Created(Closed(l), p)
  }

  function Replay(l: Log, events: seq<LogEvent>): (l': Log)
    requires l.Open()
    ensures l'.Open()
  {
    if events == [] then l else Apply(Replay(l, events[..|events| - 1]), events[|events| - 1])
  }

  // What the files hold

  /** Every file is one header and the encodings of its records, with the open member counted as if closed. */
  ghost predicate Holds(l: Log, records: map<Path, seq<Record>>) {
    && l.files.Keys == records.Keys
    && (l.member.Some? ==> l.path in l.files)
    && forall p :: p in records ==> l.Content(p) == VERSION + EncodeAll(records[p])
  }

  function WithFile(records: map<Path, seq<Record>>, p: Path): map<Path, seq<Record>> {
    if p in records then records else records[p := []]
  }

  lemma CreatedHolds(l: Log, records: map<Path, seq<Record>>, p: Path)
    requires Holds(l, records) && l.member == None
    ensures Holds(Created(l, p), WithFile(records, p))
  {
    assert EncodeAll([]) == [];
    hide VERSION, EncodeAll;
    var l', records' := Created(l, p), WithFile(records, p);
    forall q | q in records'
      ensures l'.Content(q) == VERSION + EncodeAll(records'[q])
    {
      if q in records {
        assert l'.Content(q) == l.files[q] + [] == l.files[q];
      } else {
        assert l'.Content(q) == [] + VERSION == VERSION + [];
      }
    }
  }

  lemma ClosedHolds(l: Log, records: map<Path, seq<Record>>)
    requires Holds(l, records)
    ensures Holds(Closed(l), records) && Closed(l).member == None
  {
    hide VERSION, EncodeAll;
    assert forall b: bytes :: b + [] == b;
    assert forall q :: q in records ==> Closed(l).Content(q) == l.Content(q);
  }

  lemma AppendedHolds(l: Log, records: map<Path, seq<Record>>, r: Record)
    requires Holds(l, records) && l.Open()
    ensures Holds(Appended(l, r), records[l.path := records[l.path] + [r]])
  {
    hide VERSION, Encode, EncodeAll;
    EncodeAllAppend(records[l.path], [r]);
    EncodeAllOne(r);
    var file, earlier := l.files[l.path], EncodeAll(records[l.path]);
    assert file + (l.member.value + Encode(r)) == (file + l.member.value) + Encode(r);
    assert VERSION + (earlier + Encode(r)) == (VERSION + earlier) + Encode(r);
    assert forall q :: q in records && q != l.path ==> Appended(l, r).Content(q) == l.Content(q);
  }

  // Segments: the records between one rotation and the next

  datatype Segment = Segment(path: Path, records: seq<Record>)

  function Segments(p0: Path, events: seq<LogEvent>): (segments: seq<Segment>)
    ensures segments != []
  {
    if events == [] then [Segment(p0, [])]
    else
      var segments := Segments(p0, events[..|events| - 1]);
      match events[|events| - 1]
      case Write(r) => Extended(segments, r)
      case Rotate(p) => segments + [Segment(p, [])]
  }

  function AllRecords(segments: seq<Segment>): seq<Record> {
    if segments == [] then []
    else AllRecords(segments[..|segments| - 1]) + segments[|segments| - 1].records
  }

  function RecordsIn(segments: seq<Segment>, p: Path): seq<Record> {
    if segments == [] then []
    else
      var last := segments[|segments| - 1];
      RecordsIn(segments[..|segments| - 1], p) + (if last.path == p then last.records else [])
  }

  function Writes(events: seq<LogEvent>): seq<Record> {
    if events == [] then []
    else
      match events[|events| - 1]
      case Write(r) => Writes(events[..|events| - 1]) + [r]
      case Rotate(_) => Writes(events[..|events| - 1])
  }

  function PathsOf(segments: seq<Segment>): set<Path> {
    set i | 0 <= i < |segments| :: segments[i].path
  }

  /** What a file held before, followed by what the segments put into it. */
  function HeldAfter(before: map<Path, seq<Record>>, segments: seq<Segment>, p: Path): seq<Record> {
    (if p in before then before[p] else []) + RecordsIn(segments, p)
  }

  function RecordsAfter(before: map<Path, seq<Record>>, segments: seq<Segment>): map<Path, seq<Record>> {
    map p | p in before.Keys + PathsOf(segments) :: HeldAfter(before, segments, p)
  }

  /** No record is lost, repeated or moved: the segments, in order, are the records written. */
  lemma {:induction false} SegmentsAreWrites(p0: Path, events: seq<LogEvent>)
    ensures AllRecords(Segments(p0, events)) == Writes(events)
  {
    var segments := Segments(p0, events);
    var n := |segments| - 1;
    if events == [] {
      assert segments[..n] == [];
    } else {
      var before := Segments(p0, events[..|events| - 1]);
      SegmentsAreWrites(p0, events[..|events| - 1]);
      match events[|events| - 1]
      case Write(r) =>
        assert segments[..n] == before[..n];
        assert AllRecords(before[..n]) + (before[n].records + [r])
            == (AllRecords(before[..n]) + before[n].records) + [r];
      case Rotate(p) =>
        assert segments[..n] == before;
    }
  }

  /** The segments after one more record goes into the last of them. */
  function Extended(segments: seq<Segment>, r: Record): seq<Segment>
    requires segments != []
  {
    var last := segments[|segments| - 1];
    segments[|segments| - 1 := last.(records := last.records + [r])]
  }

  lemma HeldAfterExtended(before: map<Path, seq<Record>>, segments: seq<Segment>, r: Record, p: Path)
    requires segments != []
    ensures HeldAfter(before, Extended(segments, r), p) ==
            if p == segments[|segments| - 1].path then HeldAfter(before, segments, p) + [r]
            else HeldAfter(before, segments, p)
  {
    var n := |segments| - 1;
    var rest := segments[..n];
    assert Extended(segments, r)[..n] == rest;
    if p == segments[n].path {
      assert RecordsIn(rest, p) + (segments[n].records + [r]) == (RecordsIn(rest, p) + segments[n].records) + [r];
    }
  }

  lemma PathsOfExtended(segments: seq<Segment>, r: Record)
    requires segments != []
    ensures PathsOf(Extended(segments, r)) == PathsOf(segments) && segments[|segments| - 1].path in PathsOf(segments)
  {
    assert forall i :: 0 <= i < |segments| ==> Extended(segments, r)[i].path == segments[i].path;
  }

  lemma RecordsAfterWrite(before: map<Path, seq<Record>>, segments: seq<Segment>, r: Record)
    requires segments != []
    ensures
      var path := segments[|segments| - 1].path;
      var m := RecordsAfter(before, segments);
      && path in m
      && RecordsAfter(before, Extended(segments, r)) == m[path := m[path] + [r]]
  {
    PathsOfExtended(segments, r);
    var path := segments[|segments| - 1].path;
    forall q
      ensures HeldAfter(before, Extended(segments, r), q) ==
              HeldAfter(before, segments, q) + (if q == path then [r] else [])
    {
      HeldAfterExtended(before, segments, r, q);
    }
    RecordsAfterMore(before, segments, Extended(segments, r), path, r);
  }

  lemma RecordsAfterMore(before: map<Path, seq<Record>>, segments: seq<Segment>, after: seq<Segment>, path: Path,
                         r: Record)
    requires PathsOf(after) == PathsOf(segments) && path in PathsOf(segments)
    requires forall q :: HeldAfter(before, after, q) == HeldAfter(before, segments, q) + (if q == path then [r] else [])
    ensures RecordsAfter(before, after) ==
            var m := RecordsAfter(before, segments); m[path := m[path] + [r]]
  {
    hide HeldAfter, PathsOf;
    assert forall q :: HeldAfter(before, segments, q) + [] == HeldAfter(before, segments, q);
  }

  lemma HeldAfterRotated(before: map<Path, seq<Record>>, segments: seq<Segment>, s: Segment, p: Path)
    requires s.records == []
    ensures HeldAfter(before, segments + [s], p) == HeldAfter(before, segments, p)
    ensures p !in before && p !in PathsOf(segments) ==> HeldAfter(before, segments, p) == []
  {
    assert (segments + [s])[..|segments|] == segments;
    assert RecordsIn(segments, p) + [] == RecordsIn(segments, p);
    if p !in PathsOf(segments) {
      NoRecordsIn(segments, p);
    }
  }

  lemma PathsOfRotated(segments: seq<Segment>, s: Segment)
    ensures PathsOf(segments + [s]) == PathsOf(segments) + {s.path}
  {
    var after := segments + [s];
    assert after[|segments|].path == s.path;
    assert forall i :: 0 <= i < |segments| ==> after[i].path == segments[i].path;
  }

  lemma RecordsAfterRotate(before: map<Path, seq<Record>>, segments: seq<Segment>, p: Path)
    ensures RecordsAfter(before, segments + [Segment(p, [])]) == WithFile(RecordsAfter(before, segments), p)
  {
    var after := segments + [Segment(p, [])];
    PathsOfRotated(segments, Segment(p, []));
    forall q
      ensures HeldAfter(before, after, q) == HeldAfter(before, segments, q)
    {
      HeldAfterRotated(before, segments, Segment(p, []), q);
    }
    HeldAfterRotated(before, segments, Segment(p, []), p);
    RecordsAfterNewPath(before, segments, after, p);
  }

  lemma RecordsAfterNewPath(before: map<Path, seq<Record>>, segments: seq<Segment>, after: seq<Segment>, p: Path)
    requires PathsOf(after) == PathsOf(segments) + {p}
    requires forall q :: HeldAfter(before, after, q) == HeldAfter(before, segments, q)
    requires p !in before && p !in PathsOf(segments) ==> HeldAfter(before, segments, p) == []
    ensures RecordsAfter(before, after) == WithFile(RecordsAfter(before, segments), p)
  {
    hide HeldAfter, PathsOf;
  }

  lemma {:induction false} NoRecordsIn(segments: seq<Segment>, p: Path)
    requires p !in PathsOf(segments)
    ensures RecordsIn(segments, p) == []
  {
    if segments != [] {
      var n := |segments| - 1;
      assert segments[n].path in PathsOf(segments);
      assert forall i :: 0 <= i < n ==> segments[..n][i].path == segments[i].path;
      NoRecordsIn(segments[..n], p);
    }
  }

  /**
   * From any well-formed files, after any run of writes and rotations, to new paths or to ones already there: each
   * file is one header, the records it held before, and those of its segments; no record is split between files.
   */
  lemma {:induction false} RotationKeepsRecords(l: Log, before: map<Path, seq<Record>>, p0: Path, events: seq<LogEvent>)
    requires Holds(l, before) && l.member == None
    ensures
      var segments := Segments(p0, events);
      var l' := Replay(Created(l, p0), events);
      && l'.path == segments[|segments| - 1].path
      && Holds(l', RecordsAfter(before, segments))
  {
    hide VERSION, EncodeAll, Holds;
    if events == [] {
      CreatedHolds(l, before, p0);
      RecordsAfterRotate(before, [], p0);
      assert [] + [Segment(p0, [])] == [Segment(p0, [])];
      RecordsAfterNothing(before);
    } else {
      var n := |events| - 1;
      RotationKeepsRecords(l, before, p0, events[..n]);
      var segments := Segments(p0, events[..n]);
      var m := RecordsAfter(before, segments);
      var log := Replay(Created(l, p0), events[..n]);
      match events[n]
      case Write(r) =>
        AppendedHolds(log, m, r);
        RecordsAfterWrite(before, segments, r);
      case Rotate(p) =>
        ClosedHolds(log, m);
        CreatedHolds(Closed(log), m, p);
        RecordsAfterRotate(before, segments, p);
    }
  }

  lemma RecordsAfterNothing(before: map<Path, seq<Record>>)
    ensures RecordsAfter(before, []) == before
  {
    assert forall p :: p in before ==> before[p] + [] == before[p];
  }

  // Reading back

  /** What NewFileReader leaves to be decoded, if it accepts a file that is read like this. */
  function Payload(content: bytes, how: Reading): Option<bytes> {
    if VERSION <= content && |VERSION| <= how.chunk && (how.eager ==> |VERSION| < |content|)
    then Some(content[|VERSION|..]) else None
  }

  /** The records a closed file reads back as, and the error that ends them. */
  function ReadBack(l: Log, p: Path, how: Reading): Option<(seq<Record>, ReadError)>
    requires p in l.files
  {
    match Payload(l.files[p], how)
    case None => None
    case Some(b) => Some(DecodeAll(b))
  }

  /**
   * A file with these records opens: its header comes in one read, and without the end of the file, which an eager
   * reader reports along with the header when there are no records.
   */
  predicate Opens(records: seq<Record>, how: Reading) {
    |VERSION| <= how.chunk && (how.eager ==> records != [])
  }

  lemma {:induction false} EncodesSomething(records: seq<Record>)
    ensures EncodeAll(records) == [] <==> records == []
  {
    if records != [] {
      assert |Encode(records[0])| > 0;
    }
  }

  lemma PayloadIs(content: bytes, records: seq<Record>, how: Reading)
    requires content == VERSION + EncodeAll(records)
    ensures Payload(content, how) == if Opens(records, how) then Some(EncodeAll(records)) else None
  {
    EncodesSomething(records);
    hide VERSION, EncodeAll;
    assert (VERSION + EncodeAll(records))[|VERSION|..] == EncodeAll(records);
  }

  /** The records a file holds, if it opens, and then the plain end of the file. */
  function Readable(records: seq<Record>, how: Reading): Option<(seq<Record>, ReadError)> {
    if Opens(records, how) then Some((records, Eof)) else None
  }

  lemma ReadBackHolds(l: Log, records: map<Path, seq<Record>>, p: Path, how: Reading)
    requires Holds(l, records) && l.member == None && p in records && AllFit(records[p])
    ensures ReadBack(l, p, how) == Readable(records[p], how)
  {
    DecodeAllOfEncodeAll(records[p]);
    hide VERSION, EncodeAll, DecodeAll, Payload;
    assert l.files[p] == l.files[p] + [] == VERSION + EncodeAll(records[p]);
    PayloadIs(l.files[p], records[p], how);
  }

  /** After the last file is closed, each that opens reads back as what it held, and then its segments' records. */
  lemma FilesReadBack(l: Log, before: map<Path, seq<Record>>, p0: Path, events: seq<LogEvent>, p: Path, how: Reading)
    requires Holds(l, before) && l.member == None
    ensures
      var (l', segments) := (Closed(Replay(Created(l, p0), events)), Segments(p0, events));
      && (p in l'.files <==> p in before || p in PathsOf(segments))
      && (p in l'.files && AllFit(HeldAfter(before, segments, p)) ==>
            ReadBack(l', p, how) == Readable(HeldAfter(before, segments, p), how))
  {
    var records := RecordsAfter(before, Segments(p0, events));
    var l' := Closed(Replay(Created(l, p0), events));
    RotationKeepsRecords(l, before, p0, events);
    ClosedHolds(Replay(Created(l, p0), events), records);
    if p in records && AllFit(records[p]) {
      ReadBackHolds(l', records, p, how);
    }
    hide ReadBack, Replay, Segments;
  }

  // Reading the files in order

  /** Once a rotation has left a file, none comes back to it. */
  ghost predicate Grouped(segments: seq<Segment>) {
    forall i, j, k :: 0 <= i <= j <= k < |segments| && segments[i].path == segments[k].path ==>
      segments[j].path == segments[i].path
  }

  /** The names of the files used, in the order of their first use when grouped. */
  function Names(segments: seq<Segment>): (names: seq<Path>)
    ensures segments != [] ==> names != [] && names[|names| - 1] == segments[|segments| - 1].path
  {
    if segments == [] then []
    else
      var names := Names(segments[..|segments| - 1]);
      var last := segments[|segments| - 1].path;
      if names != [] && names[|names| - 1] == last then names else names + [last]
  }

  /** The new records of the named files, one file after the other. */
  function RecordsByFile(segments: seq<Segment>, names: seq<Path>): seq<Record> {
    if names == [] then []
    else RecordsByFile(segments, names[..|names| - 1]) + RecordsIn(segments, names[|names| - 1])
  }

  lemma {:induction false} NamesAreUsed(segments: seq<Segment>)
    ensures forall p :: p in Names(segments) ==> p in PathsOf(segments)
  {
    if segments != [] {
      var n := |segments| - 1;
      NamesAreUsed(segments[..n]);
      assert segments[..n] + [segments[n]] == segments;
      assert forall i :: 0 <= i < n ==> segments[..n][i].path == segments[i].path;
      assert segments[n].path in PathsOf(segments);
    }
  }

  lemma {:induction false} NamesDiffer(segments: seq<Segment>)
    requires Grouped(segments)
    ensures forall i, j :: 0 <= i < j < |Names(segments)| ==> Names(segments)[i] != Names(segments)[j]
  {
    if segments != [] {
      var n := |segments| - 1;
      NamesDiffer(segments[..n]);
      NamesAreUsed(segments[..n]);
      LastIsNew(segments);
    }
  }

  lemma LastIsNew(segments: seq<Segment>)
    requires segments != [] && Grouped(segments)
    ensures
      var n := |segments| - 1;
      n > 0 && segments[n - 1].path != segments[n].path ==> segments[n].path !in PathsOf(segments[..n])
    ensures |segments| == 1 ==> PathsOf(segments[..0]) == {}
  {
  }

  lemma {:induction false} RecordsByFileOfLast(segments: seq<Segment>, last: Segment, names: seq<Path>)
    requires last.path !in names
    ensures RecordsByFile(segments + [last], names) == RecordsByFile(segments, names)
  {
    if names != [] {
      var m := |names| - 1;
      RecordsByFileOfLast(segments, last, names[..m]);
      assert (segments + [last])[..|segments|] == segments;
      assert RecordsIn(segments, names[m]) + [] == RecordsIn(segments, names[m]);
    }
  }

  lemma RecordsInAppended(segments: seq<Segment>, last: Segment)
    ensures RecordsIn(segments + [last], last.path) == RecordsIn(segments, last.path) + last.records
    ensures AllRecords(segments + [last]) == AllRecords(segments) + last.records
  {
    assert (segments + [last])[..|segments|] == segments;
  }

  lemma SameFile(segments: seq<Segment>, last: Segment, names: seq<Path>)
    requires names != [] && names[|names| - 1] == last.path && last.path !in names[..|names| - 1]
    ensures RecordsByFile(segments + [last], names) == RecordsByFile(segments, names) + last.records
  {
    var others := names[..|names| - 1];
    RecordsByFileOfLast(segments, last, others);
    RecordsInAppended(segments, last);
    assert RecordsByFile(segments, others) + (RecordsIn(segments, last.path) + last.records)
        == (RecordsByFile(segments, others) + RecordsIn(segments, last.path)) + last.records;
  }

  lemma NewFile(segments: seq<Segment>, last: Segment, names: seq<Path>)
    requires last.path !in names && last.path !in PathsOf(segments)
    ensures RecordsByFile(segments + [last], names + [last.path]) == RecordsByFile(segments, names) + last.records
  {
    assert (names + [last.path])[..|names|] == names;
    RecordsByFileOfLast(segments, last, names);
    RecordsInAppended(segments, last);
    NoRecordsIn(segments, last.path);
    assert [] + last.records == last.records;
  }

  lemma GroupedWithoutLast(rest: seq<Segment>, last: Segment)
    requires Grouped(rest + [last])
    ensures Grouped(rest)
    ensures var names := Names(rest);
            if names != [] && names[|names| - 1] == last.path
            then Names(rest + [last]) == names && last.path !in names[..|names| - 1]
            else Names(rest + [last]) == names + [last.path] && last.path !in names && last.path !in PathsOf(rest)
  {
    var segments := rest + [last];
    assert segments[..|rest|] == rest;
    assert forall i :: 0 <= i < |rest| ==> segments[i] == rest[i];
    assert Grouped(rest);
    NamesDiffer(rest);
    NamesAreUsed(rest);
    LastIsNew(segments);
    hide Grouped, PathsOf;
  }

  /** When no rotation comes back to a file it left, the files read one after the other are the log. */
  lemma {:induction false} GroupedFilesAreLog(segments: seq<Segment>)
    requires Grouped(segments)
    ensures RecordsByFile(segments, Names(segments)) == AllRecords(segments)
  {
    if segments != [] {
      var n := |segments| - 1;
      var rest, last := segments[..n], segments[n];
      assert segments == rest + [last];
      GroupedWithoutLast(rest, last);
      GroupedFilesAreLog(rest);
      RecordsInAppended(rest, last);
      hide Grouped, PathsOf, RecordsByFile, AllRecords, Names, RecordsIn;
      var names := Names(rest);
      if names != [] && names[|names| - 1] == last.path {
        SameFile(rest, last, names);
      } else {
        NewFile(rest, last, names);
      }
    }
  }

  /** What reading the named files one after the other gives, passing over those that do not open. */
  function ReadInOrder(l: Log, names: seq<Path>, reading: Path -> Reading): seq<Record> {
    if names == [] then []
    else
      var last := names[|names| - 1];
      ReadInOrder(l, names[..|names| - 1], reading) +
      if last !in l.files then []
      else match ReadBack(l, last, reading(last)) case None => [] case Some((records, _)) => records
  }

  /** What does not open for an eager reader has no records to miss. */
  lemma {:induction false} ReadInOrderIs(l: Log, segments: seq<Segment>, names: seq<Path>, reading: Path -> Reading)
    requires forall p :: p in names ==>
               && p in l.files && |VERSION| <= reading(p).chunk
               && ReadBack(l, p, reading(p)) == Readable(RecordsIn(segments, p), reading(p))
    ensures ReadInOrder(l, names, reading) == RecordsByFile(segments, names)
  {
    hide ReadBack, RecordsIn;
    if names != [] {
      ReadInOrderIs(l, segments, names[..|names| - 1], reading);
    }
  }

  lemma {:induction false} NamesCover(segments: seq<Segment>)
    ensures forall p :: p in PathsOf(segments) <==> p in Names(segments)
  {
    if segments != [] {
      var n := |segments| - 1;
      NamesCover(segments[..n]);
      assert segments == segments[..n] + [segments[n]];
      PathsOfRotated(segments[..n], segments[n]);
    }
  }

  /** Rotations of the hourly template at times that do not go back by an hour. */
  ghost predicate HourlySegments(pre: string, suf: string, times: seq<Time>, segments: seq<Segment>) {
    && '%' !in pre && '%' !in suf
    && |times| == |segments|
    && (forall i :: 0 <= i < |times| ==>
          Calendar(times[i]) && segments[i].path == TimeToPath(pre + (HOURLY + suf), times[i]))
    && (forall i, j :: 0 <= i <= j < |times| ==> HourKey(times[i]) <= HourKey(times[j]))
  }

  lemma HourlySegmentsAreGrouped(pre: string, suf: string, times: seq<Time>, segments: seq<Segment>)
    requires HourlySegments(pre, suf, times, segments)
    ensures Grouped(segments)
  {
    forall i, j, k | 0 <= i <= j <= k < |segments| && segments[i].path == segments[k].path
      ensures segments[j].path == segments[i].path
    {
      hide TimeToPath, HourKey;
      HourlyPathsSortByTime(pre, suf, times[i], times[k]);
      HourlyPathsSortByTime(pre, suf, times[i], times[j]);
    }
  }

  ghost predicate SortedNames(names: seq<Path>) {
    forall i, j :: 0 <= i < j < |names| ==> LexLess(names[i], names[j])
  }

  lemma HourlyStep(pre: string, suf: string, times: seq<Time>, segments: seq<Segment>, n: nat)
    requires HourlySegments(pre, suf, times, segments) && n < |segments|
    ensures HourlySegments(pre, suf, times[..n], segments[..n])
    ensures n > 0 && segments[n - 1].path != segments[n].path ==> LexLess(segments[n - 1].path, segments[n].path)
  {
    hide TimeToPath, HourKey, LexLess;
    if n > 0 {
      HourlyPathsSortByTime(pre, suf, times[n - 1], times[n]);
    }
  }

  /** Then the files, sorted by name, hold the log in order. */
  lemma {:induction false} HourlyFilesSortByName(pre: string, suf: string, times: seq<Time>, segments: seq<Segment>)
    requires HourlySegments(pre, suf, times, segments)
    ensures SortedNames(Names(segments))
  {
    assert |times| == |segments|;
    hide HourlySegments, LexLess;
    if segments == [] {
      assert Names(segments) == [];
    } else {
      var n := |segments| - 1;
      HourlyStep(pre, suf, times, segments, n);
      HourlyFilesSortByName(pre, suf, times[..n], segments[..n]);
      hide SortedNames;
      SortedAppend(Names(segments[..n]), segments[n].path);
      if n > 0 {
        assert segments[..n][n - 1] == segments[n - 1];
      } else {
        assert Names(segments[..n]) == [];
      }
    }
  }

  lemma SortedAppend(names: seq<Path>, p: Path)
    requires SortedNames(names)
    ensures names == [] || LexLess(names[|names| - 1], p) ==> SortedNames(names + [p])
  {
    if names == [] || LexLess(names[|names| - 1], p) {
      forall i | 0 <= i < |names|
        ensures LexLess(names[i], p)
      {
        if i < |names| - 1 {
          LexTransitive(names[i], names[|names| - 1], p);
        }
      }
    }
  }
}

/** The objects that write, rotate and open the log files. */
module LogFiles {
  import opened Bytes
  import opened Codec
  import opened AuditLog
  import opened SendPacket
  import opened Template

  /**
   * The decompressed contents of the files whose gzip members are closed. With a reliable file system nothing fails
   * to open, be written or close; `reading` says how each file is read.
   */
  class FileSystem {
    var files: map<Path, bytes>
    const reliable: bool
    const reading: Path -> Reading

    constructor (reliable: bool, reading: Path -> Reading)
      ensures files == map[] && this.reliable == reliable && this.reading == reading
    {
      files, this.reliable, this.reading := map[], reliable, reading;
    }
  }

  /** What one pass of the writer's loop selects. */
  datatype Selected = ContextDone | Received(sp: SendPacket) | Drained | Ticked(t: Time)

  datatype Outcome = Again | AtEof | Failed

  class AuditLogWriter {
    const fs: FileSystem
    const filePath: string
    var latestFile: Path
    /** The open member: what has been written to it so far. */
    var gzipWriter: Sink?

    constructor (fs: FileSystem, filePath: string)
      ensures this.fs == fs && this.filePath == filePath && gzipWriter == null
    {
      this.fs, this.filePath, latestFile, gzipWriter := fs, filePath, "", null;
    }

    ghost function State(): Log
      reads this, fs, gzipWriter
    {
      Log(fs.files, latestFile, if gzipWriter == null then None else Some(gzipWriter.written))
    }

    ghost predicate Valid()
      reads this, fs, gzipWriter
    {
      gzipWriter != null ==> latestFile in fs.files && gzipWriter.reliable == fs.reliable
    }

    /**
     * Opens the file of time `t`, as a new file that starts with the header or for another member at the end of one
     * that is there. Opening may fail, and then nothing is open.
     */
    method CreateFile(t: Time) returns (ok: bool)
      requires gzipWriter == null
      modifies this, fs
      ensures Valid() && latestFile == TimeToPath(filePath, t)
      ensures gzipWriter == null || fresh(gzipWriter)
      ensures if ok then gzipWriter != null && (gzipWriter.faulted || State() == Created(old(State()), latestFile))
              else gzipWriter == null && fs.files == old(fs.files)
      ensures fs.reliable ==> ok && !gzipWriter.faulted
    {
      latestFile := TimeToPath(filePath, t);
      var opens: bool := *;
      if !opens && !fs.reliable {
        return false;
      }
      gzipWriter := new Sink(fs.reliable);
      if latestFile !in fs.files {
        fs.files := fs.files[latestFile := []];
        var _ := gzipWriter.Write(VERSION);
        assert [] + VERSION == VERSION;
      }
      return true;
    }

    /**
     * Ends the open member, and with it what a reader of the file gets. Closing the gzip writer may fail, and then it
     * stays open; so may closing the file behind it.
     */
    method CloseFile() returns (ok: bool)
      requires Valid()
      modifies this, fs
      ensures Valid() && (gzipWriter == null || gzipWriter == old(gzipWriter)) && latestFile == old(latestFile)
      ensures ok ==> gzipWriter == null
      ensures State() == if gzipWriter == null then Closed(old(State())) else old(State())
      ensures fs.reliable ==> ok
    {
      ok := *;
      if gzipWriter == null {
        return true;
      }
      var closes: bool := *;
      if !closes && !fs.reliable {
        return false;
      }
      fs.files := fs.files[latestFile := fs.files[latestFile] + gzipWriter.written];
      gzipWriter := null;
      ok := ok || fs.reliable;
    }

    /**
     * One pass of the writer's loop, on whatever it selects. Unless a write to the file fails or a file does not
     * open or close, the files change as the log does.
     */
    method ReceiveAndWrite(e: Selected) returns (outcome: Outcome)
      requires Valid() && gzipWriter != null
      requires e.Received? ==> e.sp.Valid()
      modifies this, fs, gzipWriter
      ensures Valid() && (gzipWriter == null || gzipWriter == old(gzipWriter) || fresh(gzipWriter))
      ensures e.ContextDone? ==> outcome == Again && State() == old(State())
      ensures outcome == AtEof ==> e.Drained? && State() == Closed(old(State()))
      ensures e.Drained? ==> outcome != Again
      ensures e.Received? && outcome == Again ==> State() == Apply(old(State()), Write(old(e.sp.View())))
      ensures e.Ticked? && outcome == Again ==>
                && gzipWriter != null
                && (gzipWriter.faulted || State() == Apply(old(State()), Rotate(TimeToPath(filePath, e.t))))
      ensures outcome == Again ==> gzipWriter != null
      ensures outcome == Failed && !e.Received? ==>
                State().files == old(State()).files || State().files == Closed(old(State())).files
      ensures fs.reliable ==> outcome != Failed && (e.Ticked? ==> !gzipWriter.faulted)
    {
      outcome := Again;
      match e
      case ContextDone =>
      case Received(sp) =>
        var ok := EncodePacket(gzipWriter, sp);
        if !ok {
          outcome := Failed;
        }
      case Drained =>
        var ok := CloseFile();
        outcome := if ok then AtEof else Failed;
      case Ticked(t) =>
        var ok := CloseFile();
        if ok {
          ok := CreateFile(t);
        }
        if !ok {
          outcome := Failed;
        }
    }

    /** What a pass that selects `e` does to the log. */
    ghost predicate Shows(e: Selected, event: LogEvent)
      reads if e.Received? then {e.sp, e.sp.buf} else {}
    {
      match e
      case Received(sp) => sp.Valid() && event == Write(sp.View())
      case Ticked(t) => event == Rotate(TimeToPath(filePath, t))
      case _ => false
    }

    /**
     * The writer's loop, on what its passes select, until the queue is drained or the context is done; then the open
     * file is closed. On a reliable file system it always gets there, and the files have changed by exactly the events
     * of its passes; so they have after a drain on any, when there was no rotation.
     */
    method LogWriteWorker(script: seq<Selected>) returns (outcome: Outcome, ghost events: seq<LogEvent>)
      requires Valid() && gzipWriter != null
      requires forall i :: 0 <= i < |script| && script[i].Received? ==> script[i].sp.Valid()
      modifies this, fs, gzipWriter
      ensures Valid() && |events| <= Passes(script)
      ensures forall i :: 0 <= i < |events| ==> old(Shows(script[i], events[i]))
      ensures outcome != Failed ==> |events| == Passes(script) && outcome == LoopOutcome(script)
      ensures fs.reliable ==> outcome != Failed
      ensures fs.reliable || (outcome == AtEof && forall i :: 0 <= i < |events| ==> !script[i].Ticked?) ==>
                old(State().Open()) && State() == Closed(Replay(old(State()), events))
    {
      hide Encode, TimeToPath, Apply, VERSION, Replay, Shows, Passes;
      outcome, events := Again, [];
      ghost var log, clean, n := State(), true, Passes(script);
      ReplayNothing(log);
      var i := 0;
      while i < |script| && outcome == Again && !script[i].ContextDone?
        invariant Valid() && |events| <= i <= |script| && log.Open()
        invariant gzipWriter == null || gzipWriter == old(gzipWriter) || fresh(gzipWriter)
        invariant outcome == Again ==> gzipWriter != null && i == |events|
        invariant |events| <= n
        invariant forall j :: 0 <= j < |events| ==> old(Shows(script[j], events[j]))
        invariant outcome == AtEof ==> |events| == n < |script| && script[n].Drained?
        invariant fs.reliable ==> outcome != Failed
        invariant fs.reliable || (forall j :: 0 <= j < |events| ==> !script[j].Ticked?) ==> clean
        invariant outcome != Failed && clean ==>
                    State() == if outcome == Again then Replay(log, events) else Closed(Replay(log, events))
      {
        ghost var event;
        outcome, event, clean := WorkPass(script[i], log, events, clean);
        if outcome == Again {
          events := events + [event];
        }
        i := i + 1;
      }
      var _ := CloseFile();
    }

    /** One pass, as the next event of the log so far; `clean` when no header of a new file was lost. */
    method WorkPass(e: Selected, ghost log: Log, ghost events: seq<LogEvent>, ghost clean: bool)
      returns (outcome: Outcome, ghost event: LogEvent, ghost clean': bool)
      requires Valid() && gzipWriter != null && !e.ContextDone? && (e.Received? ==> e.sp.Valid())
      requires log.Open() && (clean ==> State() == Replay(log, events))
      modifies this, fs, gzipWriter
      ensures Valid() && (gzipWriter == null || gzipWriter == old(gzipWriter) || fresh(gzipWriter))
      ensures fs.reliable ==> outcome != Failed
      ensures fs.reliable || !e.Ticked? || outcome != Again ==> clean' == clean
      ensures clean' ==> clean
      ensures outcome == Again ==> gzipWriter != null && !e.Drained? && old(Shows(e, event))
      ensures outcome == Again && clean' ==> State() == Replay(log, events + [event])
      ensures outcome == AtEof ==> e.Drained? && (clean ==> State() == Closed(Replay(log, events)))
    {
      hide Encode, TimeToPath, Apply, VERSION;
      event := match e
               case Received(sp) => Write(sp.View())
               case Ticked(t) => Rotate(TimeToPath(filePath, t))
               case _ => Rotate("");
      outcome := ReceiveAndWrite(e);
      clean' := clean;
      if outcome == Again {
        clean' := clean && (e.Ticked? ==> !gzipWriter.faulted);
        assert (events + [event])[..|events|] == events;
      }
    }
  }

  lemma ReplayNothing(l: Log)
    requires l.Open()
    ensures Replay(l, []) == l
  {
  }

  /** The passes before the one that ends the loop. */
  function Passes(script: seq<Selected>): (n: nat)
    ensures n <= |script|
    ensures forall i :: 0 <= i < n ==> script[i].Received? || script[i].Ticked?
    ensures n < |script| ==> script[n].Drained? || script[n].ContextDone?
  {
    if script == [] || script[0].Drained? || script[0].ContextDone? then 0 else 1 + Passes(script[1..])
  }

  /** The loop ends with io.EOF when the queue is drained. */
  function LoopOutcome(script: seq<Selected>): Outcome {
    if Passes(script) < |script| && script[Passes(script)].Drained? then AtEof else Again
  }

  /** A writer with the file of time `t` open, or null when it does not open. */
  method NewAuditLogWriter(fs: FileSystem, filePath: string, t: Time) returns (handler: AuditLogWriter?)
    modifies fs
    ensures handler == null ==> fs.files == old(fs.files) && !fs.reliable
    ensures handler != null ==>
              && fresh(handler) && handler.fs == fs && handler.filePath == filePath
              && handler.Valid() && handler.gzipWriter != null && fresh(handler.gzipWriter)
              && (handler.gzipWriter.faulted ||
                  handler.State() == Created(Log(old(fs.files), "", None), TimeToPath(filePath, t)))
              && (fs.reliable ==> !handler.gzipWriter.faulted)
  {
    handler := new AuditLogWriter(fs, filePath);
    var ok := handler.CreateFile(t);
    if !ok {
      handler := null;
    }
  }

  /** One Read of the size of the header, which has to be whole and come with no error. */
  method CheckFormat(r: Source) returns (text: bytes, ok: bool)
    modifies r
    ensures ok == (|VERSION| <= |old(r.data)| && |VERSION| <= r.reading.chunk &&
                   (r.reading.eager ==> |VERSION| < |old(r.data)|))
    ensures ok ==> text == old(r.data)[..|VERSION|] && r.data == old(r.data)[|VERSION|..]
  {
    var b := new byte[|VERSION|](_ => 0);
    text := [];
    var n, error := r.Read(b);
    ok := error == None && n == b.Length;
    if ok {
      text := b[..];
    }
  }

  class FileReader {
    const decoder: Decoder

    constructor (decoder: Decoder)
      ensures this.decoder == decoder
    {
      this.decoder := decoder;
    }
  }

  /** A decoder at the first record, exactly when the file is there and its first read is the header with no error. */
  method NewFileReader(fs: FileSystem, filename: Path) returns (fr: FileReader?)
    ensures fr != null <==> filename in fs.files && Payload(fs.files[filename], fs.reading(filename)).Some?
    ensures fr != null ==>
              && fresh(fr) && fresh(fr.decoder) && fresh(fr.decoder.r) && fresh(fr.decoder.buf) && fr.decoder.Valid()
              && Some(fr.decoder.r.data) == Payload(fs.files[filename], fs.reading(filename))
  {
    fr := null;
    if filename !in fs.files {
      return;
    }
    var gr := new Source(fs.files[filename], fs.reading(filename));
    var version, ok := CheckFormat(gr);
    if !ok || version != VERSION {
      return;
    }
    var decoder := new Decoder(gr);
    fr := new FileReader(decoder);
  }
}

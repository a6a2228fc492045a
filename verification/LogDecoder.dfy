/** The decoder command: opens a log file and prints each record as it is decoded. */
module LogDecoder {
  import opened Bytes
  import opened Codec
  import opened AuditLog
  import opened Framing
  import opened LogFiles
  import opened SendPacket

  const COM_QUIT: byte := 1
  const COM_INIT_DB: byte := 2
  const COM_QUERY: byte := 3
  const COM_FIELD_LIST: byte := 4
  const COM_PING: byte := 14
  const COM_BINLOG_DUMP: byte := 18
  const COM_REGISTER_SLAVE: byte := 21
  const COM_STMT_PREPARE: byte := 22
  const COM_STMT_EXECUTE: byte := 23
  const COM_STMT_SEND_LONG_DATA: byte := 24
  const COM_STMT_CLOSE: byte := 25
  const COM_STMT_RESET: byte := 26
  const COM_SET_OPTION: byte := 27
  const COM_BINLOG_DUMP_GTID: byte := 30

  /** A byte slice: none, or the first `len` bytes of an array it shares. */
  datatype Slice = NoBytes | Shared(buf: array<byte>, len: nat) {
    predicate Valid() {
      Shared? ==> len <= buf.Length
    }

    ghost function Value(): bytes
      requires Valid()
      reads if Shared? then {buf} else {}
    {
      if Shared? then buf[..len] else []
    }
  }

  /** A record prepared for printing; `packets` may still share the decoder's buffer. */
  datatype Packet = Packet(datetime: int64, connectionId: uint32, user: bytes, db: bytes, addr: bytes, state: bytes,
                           err: bytes, packets: Slice, cmd: bytes)

  /** The names of the commands that have no text or label of their own, and the seconds local time is ahead. */
  datatype Host = Host(names: byte -> bytes, zone: int64 -> int)

  /** The start of the year 0 and the end of the year 9999, in seconds since 1970. */
  const FIRST_TIME: int := -62_167_219_200
  const LAST_TIME: int := 253_402_300_799

  predicate IsLeap(year: nat) {
    year % 4 == 0 && (year % 100 != 0 || year % 400 == 0)
  }

  /** The days of the Gregorian years from 0 to the one before `year`. */
  function DaysBefore(year: nat): nat {
    if year == 0 then 0 else DaysBefore(year - 1) + if IsLeap(year - 1) then 366 else 365
  }

  lemma {:induction false} DaysBeforeIs(year: nat)
    ensures DaysBefore(year) == 365 * year + (year + 3) / 4 - (year + 99) / 100 + (year + 399) / 400
  {
    if year > 0 {
      DaysBeforeIs(year - 1);
      Multiples(year - 1);
    }
  }

  /** How many multiples of 4, 100 and 400 there are below `y + 1`, after those below `y`. */
  lemma Multiples(y: nat)
    ensures (y + 4) / 4 == (y + 3) / 4 + if y % 4 == 0 then 1 else 0
    ensures (y + 100) / 100 == (y + 99) / 100 + if y % 100 == 0 then 1 else 0
    ensures (y + 400) / 400 == (y + 399) / 400 + if y % 400 == 0 then 1 else 0
    ensures (y % 400 == 0 ==> y % 100 == 0) && (y % 100 == 0 ==> y % 4 == 0)
  {
    Fours(y);
    Hundreds(y);
    FourHundreds(y);
    HundredIsFours(y);
    FourHundredIsHundreds(y);
  }

  lemma Fours(y: nat)
    ensures (y + 4) / 4 == (y + 3) / 4 + if y % 4 == 0 then 1 else 0
  {
  }

  lemma Hundreds(y: nat)
    ensures (y + 100) / 100 == (y + 99) / 100 + if y % 100 == 0 then 1 else 0
  {
  }

  lemma FourHundreds(y: nat)
    ensures (y + 400) / 400 == (y + 399) / 400 + if y % 400 == 0 then 1 else 0
  {
  }

  lemma HundredIsFours(y: nat)
    ensures y % 100 == 0 ==> y % 4 == 0
  {
    if y % 100 == 0 {
      FourTimes(25 * (y / 100));
    }
  }

  lemma FourTimes(n: nat)
    ensures 4 * n % 4 == 0
  {
  }

  lemma FourHundredIsHundreds(y: nat)
    ensures y % 400 == 0 ==> y % 100 == 0
  {
  }

  /** The local time has a year of four digits, without which it is not marshalled. */
  predicate Dated(t: int64, host: Host) {
    FIRST_TIME <= t + host.zone(t) <= LAST_TIME
  }

  /** The bounds are the first second of the year 0 and the last one of the year 9999. */
  lemma DatedIff(t: int64, host: Host)
    ensures FIRST_TIME == -86_400 * DaysBefore(1970)
    ensures LAST_TIME + 1 == 86_400 * (DaysBefore(10_000) - DaysBefore(1970))
    ensures Dated(t, host) <==> 0 <= t + host.zone(t) + 86_400 * DaysBefore(1970) < 86_400 * DaysBefore(10_000)
  {
    hide DaysBefore;
    DaysBeforeIs(1970);
    DaysBeforeIs(10_000);
  }

  /** What is printed of a record. */
  datatype Shown = Shown(datetime: int64, connectionId: uint32, user: bytes, db: bytes, addr: bytes, state: bytes,
                         err: bytes, packets: bytes, cmd: bytes)

  datatype Result = Finished | DecodeFailed | Panicked | NotOpened

  // What a record is shown as

  function FirstNul(data: bytes): (i: nat)
    ensures i <= |data| && (forall k :: 0 <= k < i ==> data[k] != 0) && (i < |data| ==> data[i] == 0)
  {
    if data == [] || data[0] == 0 then 0 else 1 + FirstNul(data[1..])
  }

  /** The commands shown as text alone; a list of fields without a NUL cannot be shown. */
  function Text(command: byte, data: bytes): Option<bytes> {
    if command == COM_QUIT then Some(Ascii("quit"))
    else if command == COM_QUERY then Some(data)
    else if command == COM_PING then Some(Ascii("ping"))
    else if command == COM_INIT_DB then Some(Ascii("use ") + data)
    else if command == COM_FIELD_LIST && FirstNul(data) < |data| then
      var table, wildcard := data[..FirstNul(data)], data[FirstNul(data) + 1..];
      Some(Ascii("fieldList ") + table + (if wildcard == [] then [] else Ascii(" ") + wildcard))
    else None
  }

  /** The commands shown with their packet. */
  function Label(command: byte, names: byte -> bytes): bytes {
    if command == COM_STMT_PREPARE then Ascii("stmt_prepare")
    else if command == COM_STMT_EXECUTE then Ascii("stmt_execute")
    else if command == COM_STMT_CLOSE then Ascii("stmt_close")
    else if command == COM_STMT_SEND_LONG_DATA then Ascii("stmt_send_long_data")
    else if command == COM_STMT_RESET then Ascii("stmt_reset")
    else if command == COM_SET_OPTION then Ascii("set_option")
    else if command == COM_REGISTER_SLAVE then Ascii("register_slave")
    else if command == COM_BINLOG_DUMP || command == COM_BINLOG_DUMP_GTID then Ascii("binlog_dump")
    else names(command)
  }

  function Show(r: Record, packets: bytes, cmd: bytes): Shown {
    Shown(r.datetime, r.connectionId, r.user, r.db, r.addr, r.state, r.err, packets, cmd)
  }

  /** A packet that asks for a list of fields and has no NUL behind the table name. */
  predicate Unshowable(packets: bytes) {
    |packets| > HEADER_SIZE && packets[HEADER_SIZE] == COM_FIELD_LIST && 0 !in packets[HEADER_SIZE + 1..]
  }

  /** None where formatting panics. */
  function Format(r: Record, names: byte -> bytes): Option<Shown> {
    if |r.packets| <= HEADER_SIZE then Some(Show(r, r.packets, []))
    else
      var command, data := r.packets[HEADER_SIZE], r.packets[HEADER_SIZE + 1..];
      if command in {COM_QUIT, COM_QUERY, COM_PING, COM_INIT_DB, COM_FIELD_LIST} then
        match Text(command, data)
        case None => None
        case Some(text) => Some(Show(r, [], text))
      else Some(Show(r, r.packets, Label(command, names)))
  }

  /** Formatting panics on exactly the unshowable packets: those of command 4 without a NUL behind it. */
  lemma FormatFailsIff(r: Record, names: byte -> bytes)
    ensures Format(r, names) == None <==> Unshowable(r.packets)
    ensures Unshowable(r.packets) <==> |r.packets| > 4 && r.packets[4] == 4 && 0 !in r.packets[5..]
  {
    if |r.packets| > HEADER_SIZE {
      var data := r.packets[HEADER_SIZE + 1..];
      var i := FirstNul(data);
      if i < |data| {
        assert data[i] in data;
      }
    }
  }

  /** `Cmd` of the record is never shown, and everything but the packet is shown as it is. */
  lemma FormatKeepsFields(r: Record, names: byte -> bytes)
    requires Format(r, names).Some?
    ensures
      var x := Format(r, names).value;
      && r == Record(x.datetime, x.connectionId, x.user, x.db, x.addr, x.state, x.err, r.cmd, r.packets)
      && x == Format(r.(cmd := []), names).value
      && (x.packets == r.packets || (x.packets == [] && r.packets[HEADER_SIZE] in
                                     {COM_QUIT, COM_QUERY, COM_PING, COM_INIT_DB, COM_FIELD_LIST}))
  {
  }

  // What a line tells, in the numbers and letters of the protocol

  /** The bytes of a text, letter by letter. */
  predicate Spells(b: bytes, text: string) {
    |b| == |text| && forall i :: 0 <= i < |text| ==> b[i] == text[i] as int
  }

  /** The table up to the first NUL, and a space and the wildcard behind it if there is one. */
  ghost predicate TellsFields(cmd: bytes, data: bytes) {
    && |cmd| >= 10 && Spells(cmd[..10], "fieldList ")
    && exists i :: 0 <= i < |data| && data[i] == 0 && 0 !in data[..i]
                   && cmd[10..] == data[..i] + if i + 1 == |data| then [] else [0x20] + data[i + 1..]
  }

  ghost predicate TellsText(cmd: bytes, command: byte, data: bytes) {
    && (command == 1 ==> Spells(cmd, "quit"))
    && (command == 2 ==> |cmd| >= 4 && Spells(cmd[..4], "use ") && cmd[4..] == data)
    && (command == 3 ==> cmd == data)
    && (command == 4 ==> TellsFields(cmd, data))
    && (command == 14 ==> Spells(cmd, "ping"))
  }

  predicate TellsLabel(cmd: bytes, command: byte, names: byte -> bytes) {
    && (command == 21 ==> Spells(cmd, "register_slave"))
    && (command == 22 ==> Spells(cmd, "stmt_prepare"))
    && (command == 23 ==> Spells(cmd, "stmt_execute"))
    && (command == 24 ==> Spells(cmd, "stmt_send_long_data"))
    && (command == 25 ==> Spells(cmd, "stmt_close"))
    && (command == 26 ==> Spells(cmd, "stmt_reset"))
    && (command == 27 ==> Spells(cmd, "set_option"))
    && (command in {18, 30} ==> Spells(cmd, "binlog_dump"))
    && (command !in {18, 30} && !(21 <= command <= 27) ==> cmd == names(command))
  }

  /** All that the line `x` shows of the record `r`; the command's number is behind four bytes of header. */
  ghost predicate Tells(r: Record, x: Shown, names: byte -> bytes) {
    && x.datetime == r.datetime && x.connectionId == r.connectionId && x.user == r.user && x.db == r.db
    && x.addr == r.addr && x.state == r.state && x.err == r.err
    && if |r.packets| <= 4 then x.packets == r.packets && x.cmd == []
       else if r.packets[4] in {1, 2, 3, 4, 14} then
         x.packets == [] && TellsText(x.cmd, r.packets[4], r.packets[5..])
       else x.packets == r.packets && TellsLabel(x.cmd, r.packets[4], names)
  }

  lemma AsciiSpells(text: string)
    requires forall c :: c in text ==> c as int < 0x100
    ensures Spells(Ascii(text), text)
  {
    assert forall i :: 0 <= i < |text| ==> text[i] in text;
  }

  lemma TextTells(command: byte, data: bytes)
    requires Text(command, data).Some?
    ensures TellsText(Text(command, data).value, command, data)
  {
    AsciiSpells("quit");
    AsciiSpells("use ");
    AsciiSpells("ping");
    hide Ascii, Spells, TellsFields;
    if command == 2 {
      Behind(Ascii("use "), data, []);
      assert Ascii("use ") + data + [] == Ascii("use ") + data && data + [] == data;
    } else if command == 4 {
      FieldsTell(data);
    }
  }

  lemma Behind(a: bytes, b: bytes, c: bytes)
    ensures (a + b + c)[..|a|] == a && (a + b + c)[|a|..] == b + c
  {
  }

  lemma FieldsTell(data: bytes)
    requires FirstNul(data) < |data|
    ensures TellsFields(Text(4, data).value, data)
  {
    hide Ascii, Spells, FirstNul, TellsFields;
    FieldListSpells();
    Space();
    FieldsBehind(Ascii("fieldList "), data, FirstNul(data));
  }

  lemma FieldListSpells()
    ensures Spells(Ascii("fieldList "), "fieldList ")
  {
    AsciiSpells("fieldList ");
  }

  lemma Space()
    ensures Ascii(" ") == [0x20]
  {
  }

  lemma FieldsBehind(head: bytes, data: bytes, i: nat)
    requires Spells(head, "fieldList ") && |head| == 10 && i < |data| && data[i] == 0 && 0 !in data[..i]
    ensures TellsFields(head + data[..i] + if data[i + 1..] == [] then [] else [0x20] + data[i + 1..], data)
  {
    hide Spells;
    Behind(head, data[..i], if data[i + 1..] == [] then [] else [0x20] + data[i + 1..]);
  }

  lemma LabelTells(command: byte, names: byte -> bytes)
    ensures TellsLabel(Label(command, names), command, names)
  {
    AsciiSpells("stmt_prepare");
    AsciiSpells("stmt_execute");
    AsciiSpells("stmt_close");
    AsciiSpells("stmt_send_long_data");
    AsciiSpells("stmt_reset");
    AsciiSpells("set_option");
    AsciiSpells("register_slave");
    AsciiSpells("binlog_dump");
    hide Ascii, Spells;
  }

  /** Whatever is formatted tells its record. */
  lemma FormatTells(r: Record, names: byte -> bytes)
    requires Format(r, names).Some?
    ensures Tells(r, Format(r, names).value, names)
  {
    hide Text, Label, TellsText, TellsLabel;
    if |r.packets| > 4 {
      var command, data := r.packets[4], r.packets[5..];
      if command in {1, 2, 3, 4, 14} {
        TextTells(command, data);
      } else {
        LabelTells(command, names);
      }
    }
  }

  // Formatting and printing

  method IndexByte(data: bytes, c: byte) returns (i: int)
    ensures i == -1 ==> c !in data
    ensures i != -1 ==> 0 <= i < |data| && data[i] == c && c !in data[..i]
  {
    i := 0;
    while i < |data|
      invariant 0 <= i <= |data| && c !in data[..i]
    {
      if data[i] == c {
        return;
      }
      assert data[..i + 1] == data[..i] + [data[i]];
      i := i + 1;
    }
    assert data[..i] == data;
    i := -1;
  }

  lemma FirstNulIs(data: bytes, i: int)
    ensures i == -1 && 0 !in data ==> FirstNul(data) == |data|
    ensures 0 <= i < |data| && data[i] == 0 && 0 !in data[..i] ==> FirstNul(data) == i
  {
    var n := FirstNul(data);
    if n < |data| {
      assert data[n] in data;
    }
    if 0 <= i < |data| && n < i {
      assert data[..i][n] in data[..i];
    }
  }

  /** The text of one of the commands shown as text; `index` out of range panics. */
  method FormatText(command: byte, data: bytes) returns (text: bytes, ok: bool)
    requires command in {COM_QUIT, COM_QUERY, COM_PING, COM_INIT_DB, COM_FIELD_LIST}
    ensures Text(command, data) == if ok then Some(text) else None
  {
    text, ok := [], true;
    if command == COM_QUIT {
      text := Ascii("quit");
    } else if command == COM_QUERY {
      text := data;
    } else if command == COM_PING {
      text := Ascii("ping");
    } else if command == COM_INIT_DB {
      text := Ascii("use ") + data;
    } else {
      var index := IndexByte(data, 0);
      FirstNulIs(data, index);
      if index == -1 {
        return [], false;
      }
      text := Ascii("fieldList ") + data[..index];
      var wildcard := data[index + 1..];
      if |wildcard| > 0 {
        text := text + Ascii(" ") + wildcard;
        assert text == Ascii("fieldList ") + data[..index] + (Ascii(" ") + wildcard);
      } else {
        assert text == text + [];
      }
    }
  }

  /** Does not copy the packet: what is returned still shares the record's buffer. */
  method FormatPacket(sp: SendPacket, names: byte -> bytes) returns (res: Packet, ok: bool)
    requires sp.Valid()
    ensures res.packets.Valid() && (res.packets.Shared? ==> res.packets.buf == sp.buf) && res.datetime == sp.datetime
    ensures Format(sp.View(), names) == if ok then Some(Printed(res)) else None
  {
    ok := true;
    res := Packet(sp.datetime, sp.connectionId, sp.user, sp.db, sp.addr, sp.state, sp.err, NoBytes, []);
    if sp.len <= HEADER_SIZE {
      res := res.(packets := Shared(sp.buf, sp.len));
      return;
    }
    var command, data := sp.buf[HEADER_SIZE], sp.buf[HEADER_SIZE + 1..sp.len];
    assert sp.Packets()[HEADER_SIZE + 1..] == data;
    hide Text, Label;
    if command in {COM_QUIT, COM_QUERY, COM_PING, COM_INIT_DB, COM_FIELD_LIST} {
      var text;
      text, ok := FormatText(command, data);
      res := res.(cmd := text);
    } else {
      res := res.(cmd := Label(command, names), packets := Shared(sp.buf, sp.len));
    }
  }

  /** What is printed of a record if it is printed now. */
  ghost function Printed(v: Packet): Shown
    requires v.packets.Valid()
    reads if v.packets.Shared? then {v.packets.buf} else {}
  {
    Shown(v.datetime, v.connectionId, v.user, v.db, v.addr, v.state, v.err, v.packets.Value(), v.cmd)
  }

  /** Nothing is printed of a record whose time is not marshalled. */
  method FmtJson(v: Packet, host: Host) returns (lines: seq<Shown>)
    requires v.packets.Valid()
    ensures lines == if Dated(v.datetime, host) then [Printed(v)] else []
  {
    lines := [];
    if Dated(v.datetime, host) {
      var packets := if v.packets.Shared? then v.packets.buf[..v.packets.len] else [];
      lines := [Shown(v.datetime, v.connectionId, v.user, v.db, v.addr, v.state, v.err, packets, v.cmd)];
    }
  }

  /** What printing a stream of records gives, and how it ends. */
  function Print(s: bytes, host: Host): (seq<Shown>, Result)
    decreases |s|
  {
    match Decode(s)
    case Bad(e) => ([], if e == Eof then Finished else DecodeFailed)
    case Got(r, rest) =>
      match Format(r, host.names)
      case None => ([], Panicked)
      case Some(x) => ((if Dated(r.datetime, host) then [x] else []) + Print(rest, host).0, Print(rest, host).1)
  }

  /** Decodes and prints one record, while its packet is still in the decoder's buffer; None is to go on. */
  method PrintNext(decoder: Decoder, bp: SendPacket, host: Host) returns (lines: seq<Shown>, result: Option<Result>)
    requires decoder.Valid()
    modifies decoder, decoder.buf, decoder.r, bp
    ensures decoder.Valid() && (decoder.buf == old(decoder.buf) || fresh(decoder.buf))
    ensures
      match result
      case Some(end) => Print(old(decoder.r.data), host) == ([], end)
      case None =>
        var rest := Print(decoder.r.data, host);
        Print(old(decoder.r.data), host) == (lines + rest.0, rest.1) && |decoder.r.data| < |old(decoder.r.data)|
  {
    hide Decode, Format, Dated;
    lines, result := [], None;
    var error := decoder.DecodePacket(bp);
    if error.Some? {
      assert error.value == Eof || error.value == UnexpectedEof;
      result := Some(if error.value == Eof then Finished else DecodeFailed);
      return;
    }
    var packet, ok := FormatPacket(bp, host.names);
    if !ok {
      result := Some(Panicked);
      return;
    }
    lines := FmtJson(packet, host);
  }

  lemma PrintedSoFar(out: seq<Shown>, lines: seq<Shown>, rest: seq<Shown>)
    ensures out + (lines + rest) == (out + lines) + rest
  {
  }

  /** What printing a file gives, and how it ends. */
  function PrintFile(files: map<Path, bytes>, how: Reading, filename: Path, host: Host): (seq<Shown>, Result) {
    if filename !in files then ([], NotOpened)
    else match Payload(files[filename], how) case None => ([], NotOpened) case Some(s) => Print(s, host)
  }

  /** Prints the records of a file, each before the next is decoded into the same buffer. */
  method FilePrint(fs: FileSystem, filename: Path, host: Host) returns (out: seq<Shown>, result: Result)
    ensures (out, result) == PrintFile(fs.files, fs.reading(filename), filename, host)
  {
    out, result := [], NotOpened;
    var r := NewFileReader(fs, filename);
    if r == null {
      return;
    }
    var bp := new SendPacket(0);
    ghost var whole := Print(r.decoder.r.data, host);
    assert [] + whole.0 == whole.0;
    var done := false;
    hide Print, Payload;
    while !done
      invariant fresh(bp) && fresh(r.decoder) && fresh(r.decoder.r) && fresh(r.decoder.buf) && r.decoder.Valid()
      invariant var rest := Print(r.decoder.r.data, host);
                whole == if done then (out, result) else (out + rest.0, rest.1)
      decreases if done then 0 else 1, |r.decoder.r.data|
    {
      var lines, end := PrintNext(r.decoder, bp, host);
      if end.Some? {
        assert out + [] == out;
        result, done := end.value, true;
      } else {
        PrintedSoFar(out, lines, Print(r.decoder.r.data, host).0);
        out := out + lines;
      }
    }
  }

  /** The records that are formatted: those before the first one that cannot be shown. */
  function Showable(rs: seq<Record>): nat {
    if rs == [] || Unshowable(rs[0].packets) then 0 else 1 + Showable(rs[1..])
  }

  ghost predicate ShownAs(rs: seq<Record>, out: seq<Shown>, names: byte -> bytes) {
    |out| == |rs| && forall i :: 0 <= i < |rs| ==> Tells(rs[i], out[i], names)
  }

  /** The records that leave a line. */
  function WithDates(rs: seq<Record>, host: Host): seq<Record> {
    if rs == [] then []
    else (if Dated(rs[0].datetime, host) then [rs[0]] else []) + WithDates(rs[1..], host)
  }

  /** Every record leaves a line exactly when all times have a year of four digits. */
  lemma {:induction false} AllLeaveLinesIff(rs: seq<Record>, host: Host)
    ensures |WithDates(rs, host)| <= |rs|
    ensures WithDates(rs, host) == rs <==> forall i :: 0 <= i < |rs| ==> Dated(rs[i].datetime, host)
  {
    hide Dated;
    if rs != [] {
      AllLeaveLinesIff(rs[1..], host);
      assert rs == [rs[0]] + rs[1..];
      assert forall i :: 1 <= i < |rs| ==> rs[i] == rs[1..][i - 1];
    }
  }

  lemma OneMoreShown(r: Record, x: Shown, rs: seq<Record>, out: seq<Shown>, host: Host)
    requires Format(r, host.names) == Some(x) && ShownAs(WithDates(rs, host), out, host.names)
    ensures ShownAs(WithDates([r] + rs, host), (if Dated(r.datetime, host) then [x] else []) + out, host.names)
  {
    FormatTells(r, host.names);
    hide Format, Dated, Tells, ShownAs;
    assert ([r] + rs)[1..] == rs;
    if Dated(r.datetime, host) {
      ShownBehind(r, x, WithDates(rs, host), out, host.names);
    } else {
      assert [] + WithDates(rs, host) == WithDates(rs, host) && [] + out == out;
    }
  }

  lemma ShownBehind(r: Record, x: Shown, rs: seq<Record>, out: seq<Shown>, names: byte -> bytes)
    requires Tells(r, x, names) && ShownAs(rs, out, names)
    ensures ShownAs([r] + rs, [x] + out, names)
  {
    hide Tells;
  }

  lemma TakeOneMore(r: Record, rs: seq<Record>, k: nat)
    requires k <= |rs|
    ensures ([r] + rs)[..1 + k] == [r] + rs[..k] && ([r] + rs)[1..] == rs
  {
  }

  lemma ShowableStep(r: Record, rs: seq<Record>)
    requires Showable(rs) <= |rs|
    ensures var n := Showable([r] + rs);
            && n == (if Unshowable(r.packets) then 0 else 1 + Showable(rs))
            && ([r] + rs)[..n] == if Unshowable(r.packets) then [] else [r] + rs[..Showable(rs)]
  {
    hide Unshowable;
    TakeOneMore(r, rs, Showable(rs));
  }

  /**
   * Whatever the file holds, each record that decodes and has a printable time leaves one line, in order, up to the
   * first that cannot be shown; only when all can be shown does the end of the file decide between success and an
   * error.
   */
  lemma {:induction false} PrintsDecodedRecords(s: bytes, host: Host)
    ensures
      var rs := DecodeAll(s).0;
      var (out, result) := Print(s, host);
      && Showable(rs) <= |rs|
      && ShownAs(WithDates(rs[..Showable(rs)], host), out, host.names)
      && result == if Showable(rs) < |rs| then Panicked else if DecodeAll(s).1 == Eof then Finished else DecodeFailed
    decreases |s|
  {
    hide Decode, Format, Unshowable, Dated;
    match Decode(s)
    case Bad(_) =>
    case Got(r, rest) =>
      FormatFailsIff(r, host.names);
      PrintsDecodedRecords(rest, host);
      var rs := DecodeAll(rest).0;
      ShowableStep(r, rs);
      if Format(r, host.names).Some? {
        OneMoreShown(r, Format(r, host.names).value, rs[..Showable(rs)], Print(rest, host).0, host);
      }
      hide Showable, ShownAs;
  }

  /**
   * A file the writer left opens unless its header takes more than one read, or comes along with the end of the file.
   * Then it prints to the end exactly when it holds no packet that cannot be shown, one line for each printable time.
   */
  lemma WellFormedFilePrints(l: Log, records: map<Path, seq<Record>>, p: Path, how: Reading, host: Host)
    requires Holds(l, records) && l.member == None && p in records && AllFit(records[p])
    ensures
      var (out, result) := PrintFile(l.files, how, p, host);
      && (result == NotOpened <==> !Opens(records[p], how))
      && (result == Finished <==>
            Opens(records[p], how) && forall i :: 0 <= i < |records[p]| ==> !Unshowable(records[p][i].packets))
      && (result == Finished ==> ShownAs(WithDates(records[p], host), out, host.names))
  {
    hide VERSION, Decode, Format, Unshowable, Payload, Opens;
    PrintsDecodedRecords(EncodeAll(records[p]), host);
    ShowableIsAll(records[p]);
    assert records[p][..|records[p]|] == records[p];
    DecodeAllOfEncodeAll(records[p]);
    assert l.files[p] == l.files[p] + [] == VERSION + EncodeAll(records[p]);
    PayloadIs(l.files[p], records[p], how);
  }

  /** A file of the header alone, as an hour without records leaves it, is refused by an eager reader. */
  lemma HeaderOnlyFile(p: Path, how: Reading, host: Host)
    ensures PrintFile(map[p := VERSION], how, p, host)
         == ([], if |VERSION| <= how.chunk && !how.eager then Finished else NotOpened)
  {
    hide VERSION;
    assert VERSION + EncodeAll([]) == VERSION;
    PayloadIs(VERSION, [], how);
    DecodeNothing();
  }

  /**
   * A log cut after any `k` bytes prints the records whole before the cut, and reports success exactly when these can
   * be shown and the cut falls where a read starts: between records, or between certain fields of one.
   */
  lemma CutLogPrintsIff(rs: seq<Record>, k: nat, host: Host) returns (j: nat)
    requires AllFit(rs) && k <= |EncodeAll(rs)|
    ensures WholeWithin(rs, k, j)
    ensures
      var (out, result) := Print(EncodeAll(rs)[..k], host);
      && (result == Finished <==>
            CutAtRead(rs, k, j) && forall i :: 0 <= i < j ==> !Unshowable(rs[i].packets))
      && (result != Panicked ==> ShownAs(WithDates(rs[..j], host), out, host.names))
  {
    j := TruncationSafe(rs, k);
    hide Decode, Encode, Format, Unshowable, CutAtRead, WholeWithin;
    CutEndsPlainlyIff(rs, k, j);
    PrintsDecodedRecords(EncodeAll(rs)[..k], host);
    ShowableIsAll(rs[..j]);
    assert rs[..j][..j] == rs[..j];
    assert forall i :: 0 <= i < j ==> rs[..j][i] == rs[i];
  }

  lemma {:induction false} ShowableIsAll(rs: seq<Record>)
    ensures Showable(rs) <= |rs|
    ensures Showable(rs) == |rs| <==> forall i :: 0 <= i < |rs| ==> !Unshowable(rs[i].packets)
  {
    hide Unshowable;
    if rs != [] {
      ShowableIsAll(rs[1..]);
      assert forall i :: 1 <= i < |rs| ==> rs[i] == rs[1..][i - 1];
    }
  }
}

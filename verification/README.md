# Verified model of mysql8-audit-proxy

mysql8-audit-proxy stands between MySQL clients and a MySQL server. It forwards every client packet and writes a binary
audit record of it to gzip files that rotate on a ticker; a decoder command prints the files, and an SQL console edits
the table of proxy users. This project models its two cores and proves what they are for.

**The audit pipeline**, in three layers:

- Imperative classes for the session worker, the codec, the network wrappers, the log writer and the decoder command:
  `TimeoutNet.dfy`, `SendTask.dfy`, `SendPacket.dfy`, `LogFiles.dfy`, `LogDecoder.dfy`. A connection is a script of
  arrivals with timeouts, ends and errors; a context may be cancelled between any two operations.
- What a session does with its record objects, as a machine of atomic actions (`Session.dfy`). The worker is proved to
  run it. `Pipeline.dfy` interleaves any number of such machines with the shared pool, the bounded queue, and the
  writer's receives, encodes, ticks, drain and cancellation, over a heap of objects shared by reference. `Progress.dfy`
  proves what can always still happen in it.
- The files as a map from path to decompressed bytes plus one open gzip member (`AuditLog.dfy`), with file names
  (`Template.dfy`), framing (`Framing.dfy`) and the record format (`Codec.dfy`, `Bytes.dfy`) as values.

**The user table**: the syntax tree visitor and the reshaping of its flat lists (`SqlParse.dfy`), and the ordered table
with its index, encryption and store (`ServerConfig.dfy`), where an array is shared exactly where the Go slice is.

`dafny verify dfyconfig.toml` checks everything.

## Assumptions about the environment

- Cancellation is a flag that is never taken back, and the connections' context is done whenever the worker's is
  (pkg/mysqlproxy/clntsess.go:159-190).
- A read into an empty buffer returns at once without an error. A write without an error takes the whole slice.
- The clock may say anything; a record has the time at which its object was taken (`Session.RecordTimes`).
- A script of arrivals that is used up means that the peer has closed the connection.
- The connection ids of all sessions of a run differ, and the queue is closed only when no session is at work.
- User, database and address texts are shorter than 2^32 bytes.
- Concatenated gzip members read as one stream (section 2.2 of RFC 1952). Only a closed member is read back.
- Decryption undoes encryption under the same key, whatever the nonce. A generated key is not empty.
- What may fail is fixed by constants of the environment's objects: whether a context can be cancelled, whether writes,
  deadlines, files, encryption and the store work, how many bytes one read of a file returns at most, and whether it
  may report the end of the file along with the last of them. Results hold for every choice, and say which they need.

## Where the code and its reading differ

- The file header is a raw string, so it ends in a backslash and the letter n, not in a newline
  (pkg/mysqlproxy/log/log.go:11).
- A plain end-of-file error does not show that a log ends between records: a cut inside a record gives one exactly
  where a read of one of its parts starts (`Codec.CutEndsPlainlyIff`), and the decoder then reports success
  (`LogDecoder.CutLogPrintsIff`).
- A file of the header alone, as an hour without records leaves it, does not open for a reader that reports the end of
  the file along with the header (`LogDecoder.HeaderOnlyFile`); every other file of the writer opens if its header
  comes in one read (`AuditLog.FilesReadBack`).
- The decoder prints no line for a record whose local time is outside the years 0 to 9999, and carries on
  (`LogDecoder.AllLeaveLinesIff`).
- A packet that arrives by the very read that also reports the end of the connection is not forwarded
  (`SendTask.ForwardableIs`, `SendTask.ClosingPacketIsKeptBack`), and the relay to the client drops such bytes too
  (`TimeoutNet.RelayIsCompleteIff`, `TimeoutNet.ClosingBytesAreDropped`).
- Of several conditions in a WHERE only the last one on a known column selects (`SqlParse.ConditionSelects`); this is
  what their conjunction selects exactly when all of them make the same test (`SqlParse.SelectsConjunctionIff`).
- Formatting a request for a list of fields that has no NUL panics (`LogDecoder.FormatFailsIff`).
- An update of a row that has a later row of its name leaves it alone and changes the later one, selected or not
  (`ServerConfig.UpdateMissesItsRow`). It is pointwise when no selected row is hidden so; when some are, exactly when
  these already have what the update gives and the last rows of their names are selected too, given that encryption
  never repeats a stored text and no text decrypts to itself (`ServerConfig.UpdateIsPointwiseIffHarmless`).
- Setting User on all rows of a table in which a name is used twice fails when the new name is not in the table, as the
  second row of the name is then looked up under it (`ServerConfig.Manager.UpdateTable`, the condition `Misses`).
- A store that fails may leave a file that does not parse, and the next statement then works on the admin's default row
  (`ServerConfig.Manager.PutConfig`, `ServerConfig.Manager.LoadedIs`).

## Model

| member | source | states |
|---|---|---|
| Pipeline.AuditFidelity | pkg/mysqlproxy/log/auditlogwriter.go:106-171 | for any sessions and any interleaving of their steps, receives, encodes, ticks and pool evictions: once the writer has drained the queue, the file segments in rotation order hold exactly what was pushed, nothing is from elsewhere, and each session that finished with no lost push has its "connect", one "est" per forwarded packet in order with its bytes, and its "disconnect", the states spelled byte by byte |
| Pipeline.AuditFidelityByFile | pkg/mysqlproxy/log/auditlogwriter.go:57-134 | when no rotation returns to a file it left, reading the files one after the other gives that same log |
| Pipeline.HourlyAuditFidelity | pkg/mysqlproxy/log/auditlogwriter.go:106-134 | with the hourly template, ticks that do not go back, no files there before and headers that come in one read: reading the files in the order of their names gives back exactly what was pushed; those that do not open are exactly the ones without records that are read eagerly |
| Pipeline.LogIsPrefix | pkg/mysqlproxy/log/auditlogwriter.go:106-153 | in every reachable state, cancelled or not, the files hold a prefix of what was pushed, in whole records behind one header per file |
| Pipeline.FilesDecode | pkg/mysqlproxy/log/filereader.go:18-46 | once the writer has stopped, by drain or cancellation, every file that opens decodes to exactly what it held before plus the records of its segments, and then ends in EOF; and it opens exactly when its header comes in one read and, for an eager reader, has records behind it |
| Pipeline.SessionsAreIndependent | pkg/mysqlproxy/sendtask.go:34-86 | whatever the other sessions, the pool and the writer do, what a session sees of its object is a run of its own machine, and the log has exactly its pushes, missing at most its last forwarded packet |
| Pipeline.RunKeepsInvariant | pkg/mysqlproxy/log/auditlogwriter.go:110-171 | over every run: single ownership, a clean pool, isolation, snapshots, files and attribution all hold |
| Pipeline.SessionKeepsOwned | pkg/mysqlproxy/sendtask.go:35-68 | no action of a session, lost pushes and the deferred put included, puts an object in two of pool, hands, queue and writer |
| Pipeline.WriterKeepsOwned | pkg/mysqlproxy/log/auditlogwriter.go:110-122 | nor does a step of the writer or the pool |
| Pipeline.StepKeepsStocked | pkg/mysqlproxy/sendtask.go:77-86 | every object, wherever it is, has empty Err and Cmd and fits the capacity, so recycling leaks nothing into a record |
| Pipeline.SessionSteps | pkg/mysqlproxy/sendtask.go:34-86 | a session's step is its own machine's action and shows in no other session |
| Pipeline.SessionKeepsSnapshot | pkg/mysqlproxy/log/auditlogwriter.go:157-168 | objects that are queued or being encoded still hold what they held when pushed, after any step of a session |
| Pipeline.WriterKeepsSnapshot | pkg/mysqlproxy/log/auditlogwriter.go:106-134 | what was pushed is always what has been encoded, what is in the writer's hand and what is queued, in that order |
| Pipeline.StepKeepsAttributed | pkg/mysqlproxy/sendtask.go:70-86 | the records of a connection in the log are what that session pushed, each fits the format, and every record is of some session |
| Pipeline.WriterCanDrain | pkg/mysqlproxy/log/auditlogwriter.go:136-153 | from any reachable state with all sessions done, the writer alone can reach the drained end, losing nothing that was pushed |
| Progress.RunsCanComplete | pkg/mysqlproxy/log/auditlogwriter.go:106-171 | from every reachable state with the writer at work and a queue that is open and takes anything at all, there is a continuation in which every session ends with exactly what it had forwarded and lost, and the writer then drains the queue |
| Progress.SessionsCanFinish | pkg/mysqlproxy/sendtask.go:34-75 | of any number of the sessions this can be had alone, while the others stay where they are |
| Progress.TracesCanRun | pkg/mysqlproxy/sendtask.go:34-86 | whatever each of any number of sessions can do on its own, with objects as the pool makes them, they can all do in one run of the pipeline, with the same records and losses |
| Progress.TraceCanRun | pkg/mysqlproxy/sendtask.go:34-86 | a session that has not started can still do anything it can do on its own, from every reachable state, and the others need not move |
| Progress.SessionEnabledIff | pkg/mysqlproxy/log/auditlogwriter.go:157-171 | a session waits for nothing but an object of the pool and room in the open queue |
| Progress.PooledObjectCanBeTaken | pkg/mysqlproxy/log/auditlogwriter.go:166-171 | any object in the pool can be taken by any session that needs one, and is then out of the pool; or the pool may drop it |
| Progress.WriterCanRotate | pkg/mysqlproxy/log/auditlogwriter.go:123-131 | from every reachable state a tick can still come, to any path, without losing what is queued or touching a session |
| Progress.WriterCanStop | pkg/mysqlproxy/log/auditlogwriter.go:136-153 | and so can cancellation |
| Session.RecordTimes | pkg/mysqlproxy/sendtask.go:49-86 | over every run, each record pushed has the time at which its object was taken, in order |
| Session.CompleteLogIsSpelled | pkg/mysqlproxy/sendtask.go:34-86 | a complete log says 99 111 110 110 101 99 116, then 101 115 116 with each packet, then 100 105 115 99 111 110 110 101 99 116, each with the session's user, database, address and id and no error or command |
| Session.RunKeepsInv | pkg/mysqlproxy/sendtask.go:34-75 | every run of the session machine keeps the shape of the log, the contents of the object in hand and the account of lost records |
| Session.EstRecordsMatchForwarded | pkg/mysqlproxy/sendtask.go:56-62 | the "est" records pushed are the forwarded packets in order; only the last can be missing, exactly when it is not pushed yet or its push lost |
| Session.FinishedSessionLog | pkg/mysqlproxy/sendtask.go:34-75 | a finished session that lost nothing has the complete log |
| SendTask.SendTask.Worker | pkg/mysqlproxy/sendtask.go:34-68 | the worker runs the session machine from start to end; what it forwards is a prefix of the reference framing and the target gets that plus at most part of the next packet; io.EOF means all of the stream was forwarded and nothing is left over; with no failure or cancellation everything that can be read whole is, its log is complete, with the states spelled byte by byte, and io.EOF is returned exactly at a packet boundary; in an environment that never cancels or fails that is so |
| SendTask.SendTask.ForwardAll | pkg/mysqlproxy/sendtask.go:43-67 | the loop's account of packets forwarded, bytes at the target and the rest of the stream |
| SendTask.SendTask.Cycle | pkg/mysqlproxy/sendtask.go:43-67 | one pass forwards and logs one packet, or ends with nothing forwarded, or with a forwarded packet whose push lost |
| SendTask.SendTask.ForwardPacket | pkg/mysqlproxy/sendtask.go:53-56 | the object in hand holds exactly the packet forwarded, or nothing was forwarded |
| SendTask.SendTask.PushForwarded | pkg/mysqlproxy/sendtask.go:57-62 | the forwarded packet is logged, or the object stays in hand and the context is done |
| SendTask.SendTask.SendState | pkg/mysqlproxy/sendtask.go:70-75 | a state record with no packet is pushed, or lost to a done context |
| SendTask.SendTask.NewSendPacket | pkg/mysqlproxy/sendtask.go:77-86 | an object of the pool with the session's fields set and the rest as it was |
| SendTask.SendTask.WriteBufferAndSend | pkg/mysqlproxy/sendtask.go:120-142 | success means one packet of the stream was read, is in the buffer and was written; an error leaves at most a prefix of a packet at the target; bytes of a read cut short by cancellation are never written; the buffer is never reallocated |
| SendTask.SendTask.ReadPacket | pkg/mysqlproxy/sendtask.go:120-138 | the buffer holds the next packet of the stream, or the context is done; errors say whether the stream ended before it |
| SendTask.SendTask.ReadHeader | pkg/mysqlproxy/sendtask.go:120-131 | the header of the stream and its length, or under a done context whatever was in the buffer; never more than 0xffffff |
| SendTask.SendTask.ReadFullMysqlPacket | pkg/mysqlproxy/sendtask.go:88-118 | the bytes of the stream in full, over any chunks and timeouts; a short count with no error only under a done context |
| SendTask.SendTask.Receive | pkg/mysqlproxy/sendtask.go:91-116 | one read gives bytes of the stream, or shows that the buffer cannot be filled |
| SendTask.SendTask.ReadMore | pkg/mysqlproxy/sendtask.go:90-117 | one pass of the read loop |
| SendTask.ResizeSlice | pkg/mysqlproxy/sendtask.go:144-149 | with enough capacity the same array and the same bytes; otherwise what append gives |
| SendTask.ResizeGivesSizeIff | pkg/mysqlproxy/sendtask.go:144-149 | the result has the size asked for exactly when the capacity suffices or the slice is full |
| SendTask.ForwardableIs | pkg/mysqlproxy/sendtask.go:88-118 | all whole packets can be forwarded, but for one that comes in with the end of the connection |
| SendTask.ClosingPacketIsKeptBack | pkg/mysqlproxy/sendtask.go:104-108 | any packet that arrives alone with the end is whole and not forwarded |
| SendTask.ForwardingIgnoresChunking | pkg/mysqlproxy/sendtask.go:88-142 | connections with the same bytes, however chunked and however many timeouts, have the same packets forwarded, and all of them exactly when the last does not come with the end |
| SendTask.DeliverTakes | pkg/mysqlproxy/sendtask.go:95-116 | one read in terms of the stream still to come |
| SendTask.HeaderDecides | pkg/mysqlproxy/sendtask.go:130-136 | with the header in, the payload can be read whole exactly when the packet can |
| SendTask.LogWriter.GetSendPacket | pkg/mysqlproxy/log/auditlogwriter.go:37-43 | an object of full capacity with any leftovers of its last use but no Err and Cmd |
| SendTask.LogWriter.PushToLogChannel | pkg/mysqlproxy/log/auditlogwriter.go:157-165 | the queue takes the object as it is, or the context is done |
| TimeoutNet.TimeoutReader.Read | pkg/timeoutnet/timeoutnet.go:33-41 | a done context refuses the read and the buffer and stream stay as they are; otherwise one read of the connection |
| TimeoutNet.TimeoutWriter.Write | pkg/timeoutnet/timeoutnet.go:16-24 | nothing arrives under a done context; without an error everything does, and with one a prefix |
| TimeoutNet.TimeoutReader.WriteTo | pkg/timeoutnet/timeoutnet.go:42-70 | the relay passes on the reads that came without an error, in order, and stops cleanly exactly when the peer closed; on a reliable writer that is never cancelled nothing else happens |
| TimeoutNet.TimeoutReader.RelayOnce | pkg/timeoutnet/timeoutnet.go:46-67 | one pass of the relay loop |
| TimeoutNet.RelayIsCompleteIff | pkg/timeoutnet/timeoutnet.go:46-67 | the relay passes on the whole stream exactly when no read returns data along with an error |
| TimeoutNet.ClosingBytesAreDropped | pkg/timeoutnet/timeoutnet.go:47-51 | bytes that arrive with the end are dropped |
| TimeoutNet.SplitKeepsContent | pkg/mysqlproxy/sendtask.go:94-116 | splitting a chunk anywhere leaves the content of a connection as it is |
| TimeoutNet.TimeoutKeepsContent | pkg/mysqlproxy/sendtask.go:98-103 | a timeout anywhere leaves it as it is |
| Framing.HeaderLengthIsLittleEndian | pkg/mysqlproxy/sendtask.go:130 | the shifts and ors give the 3-byte little-endian number, at most 0xffffff |
| Framing.PacketShape | pkg/mysqlproxy/sendtask.go:120-136 | a packet is four bytes and as many more as the first three say, the lowest first |
| Framing.PacketsPartitionStream | pkg/mysqlproxy/sendtask.go:120-142 | framing loses and invents no byte, every frame is a packet, and what is left holds none |
| Framing.PacketsAreUnique | pkg/mysqlproxy/sendtask.go:120-142 | any list of packets with an incomplete one behind it frames as that list |
| Codec.EncodingIsLaidOut | pkg/mysqlproxy/sendpacket/sendpacket.go:25-66 | byte by byte: eight bytes congruent to the time modulo 2^64, four of the id, then user, database, address, state, error, command and packet, each behind four bytes of its length, all lowest first |
| Codec.AcceptedIsLaidOut | pkg/mysqlproxy/sendpacket/sendpacket.go:80-145 | whatever is accepted as a record was laid out so |
| Codec.RoundTripIffFits | pkg/mysqlproxy/sendpacket/sendpacket.go:25-66 | decoding an encoding, whatever follows, returns the record and leaves what follows, exactly for records whose lengths fit 32 bits |
| Codec.DecodeConsumes | pkg/mysqlproxy/sendpacket/sendpacket.go:80-145 | what is accepted is exactly the encoding of the result |
| Codec.TruncationSafe | pkg/mysqlproxy/sendpacket/sendpacket.go:80-145 | cut anywhere, a log decodes to exactly the records whole before the cut and then an end-of-file error, a plain one at a record boundary |
| Codec.PrefixDoesNotDecode | pkg/mysqlproxy/sendpacket/sendpacket.go:80-145 | no proper prefix of an encoding decodes |
| Codec.DecodeAllOfEncodeAll | pkg/mysqlproxy/sendpacket/sendpacket.go:37-145 | a whole log decodes to its records and then EOF |
| Codec.DecodeAllConsumes | pkg/mysqlproxy/sendpacket/sendpacket.go:99-145 | of any bytes, exactly the encodings of the records returned are consumed |
| Codec.EncodingsAreUnique | pkg/mysqlproxy/sendpacket/sendpacket.go:37-66 | a byte stream encodes at most one list of records |
| Codec.CutEndsPlainlyIff | pkg/mysqlproxy/sendpacket/sendpacket.go:80-145 | for every cut of a log: the error is plain EOF exactly when the cut falls between records or where a read inside the cut record starts (its time, its id, a field's length, a field that is not empty), and unexpected EOF otherwise |
| Codec.RecordCut | pkg/mysqlproxy/sendpacket/sendpacket.go:99-145 | the same for one record and every offset in it |
| Bytes.FromToLE | pkg/mysqlproxy/sendpacket/sendpacket.go:25-46 | little-endian numbers read back as written |
| Bytes.ToFromLE | pkg/mysqlproxy/sendpacket/sendpacket.go:80-105 | bytes read as a number are what writing the number gives |
| SendPacket.EncodePacket | pkg/mysqlproxy/sendpacket/sendpacket.go:37-66 | the stream gets exactly the encoding of the object's fields, or a prefix of it when a write fails |
| SendPacket.WriteBytes | pkg/mysqlproxy/sendpacket/sendpacket.go:25-31 | the length modulo 2^32 and then the bytes |
| SendPacket.Decoder.DecodePacket | pkg/mysqlproxy/sendpacket/sendpacket.go:99-145 | all fields hold the next record of the stream although one buffer served all of them and Packets shares it; the buffer never shrinks; errors are those of decoding the stream |
| SendPacket.Decoder.ReadBytes | pkg/mysqlproxy/sendpacket/sendpacket.go:80-97 | the next field is in the front of the reused buffer, grown when it is too small |
| AuditLog.VersionBytes | pkg/mysqlproxy/log/log.go:11 | the 31 bytes of the header |
| AuditLog.RotationKeepsRecords | pkg/mysqlproxy/log/auditlogwriter.go:57-134 | from no files or well-formed ones, after any run of writes and ticks, to new paths or existing ones: each file is one header and whole records, those it had before and those of its segments |
| AuditLog.SegmentsAreWrites | pkg/mysqlproxy/log/auditlogwriter.go:106-134 | the segments in order are the records written; none is lost, repeated or split |
| AuditLog.FilesReadBack | pkg/mysqlproxy/log/filereader.go:18-46 | after the last close each file decodes to exactly its records, and opens exactly under that condition |
| AuditLog.CreatedHolds | pkg/mysqlproxy/log/auditlogwriter.go:57-74 | opening a new file writes the header, opening an existing one adds a member without one; both keep files well-formed |
| AuditLog.ClosedHolds | pkg/mysqlproxy/log/auditlogwriter.go:91-104 | closing changes no file's content |
| AuditLog.AppendedHolds | pkg/mysqlproxy/log/auditlogwriter.go:79-85 | an encoded record adds itself to the open file only |
| AuditLog.GroupedFilesAreLog | pkg/mysqlproxy/log/auditlogwriter.go:123-131 | when rotation never returns to a file, the files read in order of first use are the log |
| AuditLog.HourlySegmentsAreGrouped | pkg/mysqlproxy/log/log.go:27-37 | with the hourly template and times that do not go back, it never does |
| AuditLog.HourlyFilesSortByName | pkg/mysqlproxy/log/log.go:27-37 | and then order by file name is that order |
| LogFiles.AuditLogWriter.ReceiveAndWrite | pkg/mysqlproxy/log/auditlogwriter.go:106-134 | without I/O errors a pass changes the files as a write, a rotation, a close or nothing does |
| LogFiles.AuditLogWriter.LogWriteWorker | pkg/mysqlproxy/log/auditlogwriter.go:136-153 | on a reliable file system, over any script of receives and ticks up to drain or cancellation, the files change by exactly the events of its passes in order and the last member is closed; so they do on any after a drain without rotations |
| LogFiles.AuditLogWriter.CreateFile | pkg/mysqlproxy/log/auditlogwriter.go:57-74 | a new file with its header, another member of an existing file, or nothing open |
| LogFiles.AuditLogWriter.CloseFile | pkg/mysqlproxy/log/auditlogwriter.go:91-104 | the open member becomes part of its file, or closing it fails and it stays open |
| LogFiles.NewAuditLogWriter | pkg/mysqlproxy/log/auditlogwriter.go:33-55 | a writer with the first file open, or none |
| LogFiles.CheckFormat | pkg/mysqlproxy/log/log.go:14-25 | one read that has to return the size of the header and no error, which it does exactly when that much is there, one read can return it, and the end is not reported along with it |
| LogFiles.NewFileReader | pkg/mysqlproxy/log/filereader.go:18-46 | a decoder at the first record, exactly when the file is there, starts with the header, and its first read is the header with no error |
| Template.TimeToPathIsSimultaneous | pkg/mysqlproxy/log/log.go:28-37 | for every template the seven replacements in sequence are one simultaneous substitution |
| Template.PatternsAre | pkg/mysqlproxy/log/log.go:29-35 | for years of up to four digits: which two or four digits stand in a name for year, year of the century, month, day, hour, minute and second, and that nothing else is replaced |
| Template.HourlyPathsSortByTime | pkg/mysqlproxy/log/log.go:27-37 | hourly names sort as their hours, and two times share a name exactly within an hour |
| Template.HourKeyIsLexicographic | pkg/mysqlproxy/log/log.go:27-37 | the hour's number orders by year, month, day and hour |
| LogDecoder.FilePrint | cmd/mysql8-audit-log-decoder/main.go:40-66 | prints the file's records in order, each while it is still in the shared buffer, and ends as the first failure says; a file that does not open prints nothing |
| LogDecoder.PrintNext | cmd/mysql8-audit-log-decoder/main.go:47-64 | one pass of the loop |
| LogDecoder.FormatPacket | cmd/mysql8-audit-log-decoder/main.go:89-171 | what is shown of the object as it is now, sharing its buffer |
| LogDecoder.FormatTells | cmd/mysql8-audit-log-decoder/main.go:89-163 | what is shown of every packet by the number of its command: the text of a query, the text behind "use ", table and wildcard of a list of fields, the words for quit and ping alone; the label of a prepared statement, option or replication command, or another's name, with the packet; a packet of a header or less as it is |
| LogDecoder.FormatFailsIff | cmd/mysql8-audit-log-decoder/main.go:123-127 | formatting panics on exactly the packets of command 4 without a NUL behind it |
| LogDecoder.FormatKeepsFields | cmd/mysql8-audit-log-decoder/main.go:89-163 | every field but Cmd is shown, and the packet too, except for five commands |
| LogDecoder.PrintsDecodedRecords | cmd/mysql8-audit-log-decoder/main.go:46-76 | of any bytes, one line per record that decodes and has a printable time, in order, each telling its record's fields and what its packet says, up to the first that panics; otherwise the end decides between success and an error |
| LogDecoder.DatedIff | cmd/mysql8-audit-log-decoder/main.go:68-75 | the printable local times are those from the first day of the year 0 to the last of 9999, by the Gregorian leap years |
| LogDecoder.AllLeaveLinesIff | cmd/mysql8-audit-log-decoder/main.go:68-75 | every record leaves a line exactly when all local times have a year from 0 to 9999 |
| LogDecoder.WellFormedFilePrints | cmd/mysql8-audit-log-decoder/main.go:40-66 | a file of the writer opens exactly when its header comes in one read and, for an eager reader, has records behind it; then it prints to the end exactly when it holds no packet that panics |
| LogDecoder.HeaderOnlyFile | pkg/mysqlproxy/log/log.go:14-25 | a file of the header alone prints nothing and succeeds, or is refused when the end comes with the header |
| LogDecoder.CutLogPrintsIff | cmd/mysql8-audit-log-decoder/main.go:46-66 | a cut log prints the records whole before the cut that have a printable time, and success is reported exactly when they can be shown and the cut falls where a read starts |
| SqlParse.VisitCondition | pkg/serverconfig/sqlparse.go:54-99 | for every WHERE tree of comparisons, parentheses and connectives, from any state: its columns and values in order and in step go to the Where lists, no other list changes, CurrentType ends empty and WhereOp is that of the last comparison |
| SqlParse.VisitParts | pkg/serverconfig/sqlparse.go:54-99 | in a whole statement, wherever the condition stands, its columns and values are kept apart from those of the other parts, all in order |
| SqlParse.VisitNames | pkg/serverconfig/sqlparse.go:56-69 | after any tree the statement and the table are those named last, outer before inner and left before right |
| SqlParse.VisitStrays | pkg/serverconfig/sqlparse.go:69-98 | for every tree, exactly when Columns and Values stay untouched |
| SqlParse.StrayValue | pkg/serverconfig/sqlparse.go:91-98 | a value behind a nested comparison goes to Values |
| SqlParse.ParsedQuery.Accept | pkg/serverconfig/sqlparse.go:54-99 | Enter, children and Leave on the mutable object give the visited state |
| SqlParse.ParsedQuery.ColumnsToConfig | pkg/serverconfig/sqlparse.go:137-162 | the rows of the values, or the error; the stride loop ends |
| SqlParse.KnownNames | pkg/serverconfig/sqlparse.go:127-183 | the names compared equal are "user" and "password" in letters of either case, letter by letter, and which field each sets and tests |
| SqlParse.RowsGive | pkg/serverconfig/sqlparse.go:137-162 | there are rows exactly when there are no values, or each column spells one of the two names and they divide the values; row i has, for each name, the value of the last column that spells it from values i*k to (i+1)*k |
| SqlParse.DefaultColumns | pkg/serverconfig/sqlparse.go:139-141 | values without columns are pairs of a user and a password, in this order, and an odd number is an error |
| SqlParse.FillSets | pkg/serverconfig/sqlparse.go:144-158 | setting columns succeeds exactly when no value is missing and each spells one of the two names; each field is then the value of the last column that spells its name, or as before |
| SqlParse.FillFails | pkg/serverconfig/sqlparse.go:145-156 | the error is that of the first column that has no value or is unknown |
| SqlParse.ParsedQuery.UpdateColumns | pkg/serverconfig/sqlparse.go:164-183 | a row with the columns set, or the error |
| SqlParse.ParsedQuery.SelectResultset | pkg/serverconfig/sqlparse.go:222-245 | the known columns of each row, with a header unless there are no rows |
| SqlParse.HeaderNames | pkg/serverconfig/sqlparse.go:222-245 | a result row has a value for each column that spells a name, in order, and the header calls each by its name |
| SqlParse.RoundTripIff | pkg/serverconfig/sqlparse.go:137-245 | flattening the result rows gives the values back exactly when no row has two values for one name |
| SqlParse.DistinctColumnsRoundTrip | pkg/serverconfig/sqlparse.go:137-245 | without duplicate columns that is always so |
| SqlParse.DuplicateColumnsLoseValues | pkg/serverconfig/sqlparse.go:137-245 | with duplicates it is not for some values |
| SqlParse.ParsedQuery.WhereColumnsToConfig | pkg/serverconfig/sqlparse.go:192-210 | the selected rows in order, as the table's own array when there is no condition; an error for any operator but equality |
| SqlParse.Selection | pkg/serverconfig/sqlparse.go:212-220 | the rows that meet the test, in order, in a new array |
| SqlParse.PicksWords | pkg/serverconfig/sqlparse.go:185-210 | of any columns and values, the last column that spells a name alone selects, by its value or by an empty one when that is missing |
| SqlParse.ConditionSelects | pkg/serverconfig/sqlparse.go:192-210 | of a parsed condition, the last comparison on a column that spells "user" or "password" alone selects, and the last operator alone is checked |
| SqlParse.SelectsConjunctionIff | pkg/serverconfig/sqlparse.go:192-210 | for comparisons for equality, selection is their conjunction over the known columns, for all rows, exactly when all of them make the same test as the last |
| SqlParse.ConjunctionIgnored | pkg/serverconfig/sqlparse.go:199-208 | two comparisons and a row that meets only the last of them, and is selected |
| ServerConfig.Manager.UpdateTable | pkg/serverconfig/serverconfig.go:173-202 | for every table: it succeeds exactly when the update is possible and no lookup misses, the cipher aside, and lookups miss only when all rows get a name that is not in the table while names repeat; the last row of each selected name gets the update of the last row selected under it, encrypted, all else, order and length are kept and n is the number selected, even where the rows are the array overwritten; when no selected row has a later row of its name, this is the pointwise SET over the old table; rows hidden by a later one never change |
| ServerConfig.Manager.UpdateNext | pkg/serverconfig/serverconfig.go:184-199 | one pass of the update loop, after which the rows still to come update as they did |
| ServerConfig.Manager.UpdateRow | pkg/serverconfig/serverconfig.go:184-198 | one row found through the index and overwritten, or the table as it was |
| ServerConfig.UpdateIsPointwiseIff | pkg/serverconfig/serverconfig.go:173-202 | over all tables, when the update would change the selected rows that a later row of their name hides: it is pointwise exactly when there are none |
| ServerConfig.UpdateIsPointwiseIffHarmless | pkg/serverconfig/serverconfig.go:173-202 | over all tables and updates, provided encryption never repeats a stored text and no text decrypts to itself: a successful update is pointwise exactly when each selected row that is hidden already has what the update gives and the last row of its name is selected too |
| ServerConfig.WrittenIsPointwiseIff | pkg/serverconfig/serverconfig.go:184-199 | the same, without the assumption on decryption, for updates that write through to the last rows of the names |
| ServerConfig.UpdateMissesItsRow | pkg/serverconfig/serverconfig.go:184-198 | a two-row table and a WHERE on its first row: the update is possible, leaves that row as it was and changes the other |
| ServerConfig.Manager.Update | pkg/serverconfig/serverconfig.go:164-171 | the same on the stored table, which stays as it was on every error but a failing store |
| ServerConfig.Manager.InsertInto | pkg/serverconfig/serverconfig.go:133-154 | all rows are added in order, encrypted, exactly when they reshape and all names are new and distinct, the cipher aside; the index stays exact |
| ServerConfig.Manager.InsertRow | pkg/serverconfig/serverconfig.go:142-151 | one row behind those added so far, refused exactly when its name is taken |
| ServerConfig.Manager.Insert | pkg/serverconfig/serverconfig.go:124-131 | all or nothing on the stored table |
| ServerConfig.Manager.DeleteFrom | pkg/serverconfig/serverconfig.go:212-238 | the rows with other names stay in order; removed plus remaining is the old length |
| ServerConfig.Manager.Remaining | pkg/serverconfig/serverconfig.go:222-235 | the loop over all rows |
| ServerConfig.Manager.Delete | pkg/serverconfig/serverconfig.go:204-211 | the same on the stored table, which any error but a failing store leaves as it was |
| ServerConfig.DeletesOnlySelectedIff | pkg/serverconfig/serverconfig.go:222-234 | exactly the selected rows go when no other row has the name of one of them |
| ServerConfig.Manager.Select | pkg/serverconfig/serverconfig.go:156-163 | the selected rows in the columns asked for |
| ServerConfig.Manager.MakeIndex | pkg/serverconfig/serverconfig.go:75-82 | each name leads to its last row |
| ServerConfig.Manager.GetConfig | pkg/serverconfig/serverconfig.go:84-106 | the stored table, or one admin row when there is none that can be read, under a key that is not empty, with its index rebuilt |
| ServerConfig.Manager.PutConfig | pkg/serverconfig/serverconfig.go:108-118 | the table is stored, or with an error the file is as before, unreadable, or the table |
| ServerConfig.IndexIsSearchIff | pkg/serverconfig/serverconfig.go:75-82 | the index agrees with linear search exactly when no name is used twice |
| ServerConfig.TableRefinesMap | pkg/serverconfig/serverconfig.go:124-238 | over every run of inserts, deletes and password updates, by user or on all rows: names stay unique and each row decrypts to what a map from users to passwords has after the same statements |
| ServerConfig.Manager.ExecuteAll | pkg/serverconfig/serverconfig.go:84-238 | over any list of statements on the manager, loading and storing for each: as far as the store works the file stands for the map after the accepted statements, from the admin's password alone on; with encryption working these are exactly the ones possible on the map |
| ServerConfig.Manager.Execute | pkg/serverconfig/serverconfig.go:124-238 | one statement, from loading to storing, does to the stored table what it does to the map, and is refused only when the map refuses it, cipher and store aside |
| ServerConfig.AcceptsIffMapDoes | pkg/serverconfig/serverconfig.go:124-238 | each statement is possible on the table exactly when it is on the map |
| ServerConfig.ParsedPasswordUpdate | pkg/serverconfig/sqlparse.go:54-210 | a parsed UPDATE that sets the password of one user, in letters of either case and any parentheses and order of parts, is possible exactly when there is that user, and changes that password in the map and nothing else |
| ServerConfig.ParsedInsert | pkg/serverconfig/sqlparse.go:54-162 | a parsed INSERT of users with their passwords, with both columns or none, is possible exactly when the users are new and distinct, and adds each with its password and nothing else |
| ServerConfig.ParsedDelete | pkg/serverconfig/sqlparse.go:54-210 | a parsed DELETE of one user is possible exactly when there is that user, and takes it out and nothing else |
| ServerConfig.IndexedPassword | pkg/serverconfig/serverconfig.go:75-82 | then index and search lead each user, and no other, to the row with its password |
| ServerConfig.Manager.LoadedIs | pkg/serverconfig/serverconfig.go:84-106 | without a table that can be read, the admin's default password is loaded; otherwise the stored table |
| ServerConfig.Manager.LoadedRepresents | pkg/serverconfig/serverconfig.go:84-106 | what is loaded stands for the same passwords as what is stored, and has a key |

## Left out

- TimeoutNet.TimeoutReader.WriteTo: requires a context whose deadline, if any, never expires, as all contexts of the proxy are; with one that has expired, the Go loop would take the context's own error for a timeout and never end.
- LogFiles.AuditLogWriter.ReceiveAndWrite: promises little about the files once opening, writing or closing one has failed, because the Go loop goes on after such errors.
- LogFiles.AuditLogWriter.LogWriteWorker: ends at the first failure, where the Go loop goes on: it may use a file that did not open, or try to close one again and again behind a closed channel.
- SendTask.LogWriter.GetSendPacket: returns an object of its own each time; that objects of the shared pool are never held twice is proved in Pipeline.
- ServerConfig.Manager.UpdateTable: of an update without WHERE that sets User and not Password on a table with duplicate names, it says which rows change and what they are named, but not which earlier ciphertexts end up encrypted in them.
- ServerConfig.TableRefinesMap: covers updates that set only Password, with WHERE absent or `User = v`. Setting only User encrypts the stored ciphertext again (pkg/serverconfig/serverconfig.go:189-197), and renaming can make names collide.
- ServerConfig.Manager.GetConfig: a file that is JSON but not of the table's shape, which the proxy takes over as far as it fits, is not modelled.
- TCP, TLS, the MySQL handshake and authentication, dialing, certificates and the command line.
- gzip compression, AES-GCM, base64, JSON and the SQL parser; texts that JSON cannot represent; the order in which the parser's nodes visit the parts of a statement, for which `VisitParts` takes any order.
- The dispatch of a parsed statement to its handler, and subqueries that would dispatch more than once.
- Matching a login name against the table, where user names are regular expressions (pkg/serverconfig/serverconfig.go:282-317).
- Concurrent administration sessions: loading, changing and storing the table is not atomic in the proxy.
- Closing the queue while sessions still push, where the proxy panics.
- The names of the remaining commands in the decoder, which are a parameter, and the JSON text it prints.
- Hex dumps, capability printing, listening and target lookup: they would only add easy members.

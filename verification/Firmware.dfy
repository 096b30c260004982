/** The controller's file and job commands as a state machine: the upload session, the SD card, and the loaded job.

  What the hardware or the file system decides (free space, whether a file opens, how many bytes a write takes,
  whether the job stream starts, pauses, resumes or stops) is part of the command that meets that decision.
 */
module Firmware {
  import opened Bytes
  import opened Wrappers
  import Crc32

  const CHUNK_SIZE: nat := 4096
  const MAX_FILENAME: nat := 64
  const NO_TRANSFER: Byte := 0

  /** Above this size the 32-bit sum of the bytes written and one more payload can wrap around. */
  const MAX_UNWRAPPED: nat := ALL_ONES - CHUNK_SIZE

  datatype Session = Session(
    active: bool, transferId: Byte, expectedSize: U32, bytesWritten: U32, expectedSeq: U32, crc: U32,
    path: string, file: Option<string>)

  const NO_SESSION := Session(false, NO_TRANSFER, 0, 0, 0, ALL_ONES, "", None)

  /** The SD card, and how often a file was opened for writing and closed again. */
  datatype Storage = Storage(files: map<string, seq<Byte>>, opens: nat, closes: nat)

  datatype Job = Job(loaded: bool, running: bool, name: string, path: string, totalLines: nat, lastProgressLine: U32)

  const NO_JOB := Job(false, false, "", "", 0, 0)

  datatype Controller = Controller(
    session: Session, storage: Storage, job: Job, nextUploadId: Byte, nextDownloadId: Byte)

  datatype Operation = Load | Unload | Delete | Upload | Download

  datatype ErrorCode =
    | Busy | MissingParam | InvalidFilename | NoSd | NoSpace | WriteFail | ReadFail | InvalidSession | BadSequence
    | SizeMismatch | CrcFail | FileNotFound | FileExists | NoJobLoaded | InvalidState

  datatype JobCommand = Start | Resume | Pause | Abort

  datatype Reply =
    | StorageError(error: ErrorCode, operation: Operation)
    | Error(error: ErrorCode)
    | UploadReady(transferId: Byte, size: U32, chunkSize: nat)
    | UploadAck(transferId: Byte, sequence: U32, committed: U32)
    | UploadEnd(transferId: Byte, size: U32)
    | UploadAborted
    | Loaded(name: string)
    | Unloaded
    | Deleted(name: string)
    | JobEvent(hasJob: bool, name: string)
    | DownloadReady(transferId: Byte, size: U32)
    | DownloadEnd(transferId: Byte)
    | DownloadAborted
    | CommandAck(command: JobCommand)
    | JobProgress(line: nat, total: nat)
    | JobComplete
    | JobError

  datatype Command =
    | FileLoad(rawName: string, totalLines: nat)
    | FileUnload
    | FileDelete(rawName: string, unlinked: bool)
    | FileUpload(rawName: string, size: U32, overwrite: bool, free: Option<int>, openOk: bool)
    | UploadData(transferId: Byte, sequence: U32, payload: seq<Byte>, written: nat, unlinked: bool)
    | FileUploadEnd(crc: U32, unlinked: bool)
    | FileUploadAbort(unlinked: bool)
    | FileDownload(rawName: string, openOk: bool, acknowledged: bool)
    | JobStart(started: bool, resumed: bool)
    | JobResume(resumed: bool)
    | JobPause(paused: bool)
    | JobAbort(aborted: bool)
    | PushTask(connected: bool, line: Option<U32>)
  {
    /** A frame carries at most one chunk, and a write takes at most what it was given. */
    predicate WellFormed()
    {
      UploadData? ==> |payload| <= CHUNK_SIZE && written <= |payload|
    }
  }

  /** The session that is active now is the one of transfer `id`. */
  predicate Owns(c: Controller, id: Byte)
  {
    c.session.active && c.session.transferId == id
  }

  datatype Outcome = Outcome(next: Controller, replies: seq<Reply>)

  // ----- names and paths -----

  /** The text of a fixed-size field: up to the terminator, truncated to leave room for one. */
  function ReadFixed(raw: string, limit: nat): (name: string)
  {
    if raw == [] || raw[0] == '\0' || limit == 0 then [] else [raw[0]] + ReadFixed(raw[1..], limit - 1)
  }

  function NameOf(raw: string): (name: string)
  {
    ReadFixed(raw, MAX_FILENAME - 1)
  }

  predicate ValidName(name: string)
  {
    name != [] && '/' !in name && '\\' !in name
  }

  function PathOf(name: string): (path: string)
  {
    "/" + name
  }

  // ----- the upload session -----

  /** The writer continues at the end of the file it has open; a file deleted meanwhile stays deleted. */
  function Stored(files: map<string, seq<Byte>>, path: string, bytes: seq<Byte>): (after: map<string, seq<Byte>>)
  {
    if path in files then files[path := files[path] + bytes] else files
  }

  /** Closes the file and forgets the session; whether a partial file can be unlinked is for the card to say. */
  function CloseSession(c: Controller, deletePartial: bool, unlinked: bool): (d: Controller)
  {
    var closes := c.storage.closes + if c.session.file.Some? then 1 else 0;
    var files := if deletePartial && c.session.path != "" && unlinked then c.storage.files - {c.session.path}
                 else c.storage.files;
    c.(session := NO_SESSION, storage := Storage(files, c.storage.opens, closes))
  }

  function NextId(id: Byte): (next: Byte)
  {
    var n := (id + 1) % 0x100;
    if n == NO_TRANSFER then n + 1 else n
  }

  function BeginUpload(c: Controller, rawName: string, size: U32, overwrite: bool, free: Option<int>, openOk: bool)
    : (o: Outcome)
  {
    var name := NameOf(rawName);
    var path := PathOf(name);
    if c.job.running then Outcome(c, [StorageError(Busy, Upload)])
    else if !ValidName(name) then Outcome(c, [StorageError(InvalidFilename, Upload)])
    else if c.session.active then Outcome(c, [StorageError(Busy, Upload)])
    else if free.None? then Outcome(c, [StorageError(NoSd, Upload)])
    else if 0 <= free.value < size then Outcome(c, [StorageError(NoSpace, Upload)])
    else if path in c.storage.files && !overwrite then Outcome(c, [Error(FileExists)])
    else if !openOk then Outcome(c, [StorageError(WriteFail, Upload)])
    else
      var id := c.nextUploadId;
      Outcome(
        c.(session := Session(true, id, size, 0, 0, ALL_ONES, path, Some(path)),
           storage := Storage(c.storage.files[path := []], c.storage.opens + 1, c.storage.closes),
           nextUploadId := NextId(id)),
        [UploadReady(id, size, CHUNK_SIZE)])
  }

  function AckOf(s: Session): (r: Reply)
  {
    UploadAck(s.transferId, if s.expectedSeq == 0 then 0 else s.expectedSeq - 1, s.bytesWritten)
  }

  function HandleUploadData(c: Controller, transferId: Byte, sequence: U32, payload: seq<Byte>, written: nat,
                            unlinked: bool)
    : (o: Outcome)
    requires written <= |payload| <= CHUNK_SIZE
  {
    var s := c.session;
    if !s.active || transferId != s.transferId || s.file.None? then Outcome(c, [StorageError(InvalidSession, Upload)])
    else if sequence < s.expectedSeq then Outcome(c, [AckOf(s)])
    else if sequence != s.expectedSeq then
      Outcome(CloseSession(c, true, unlinked), [StorageError(BadSequence, Upload)])
    else if Add32(s.bytesWritten, |payload|) > s.expectedSize then
      Outcome(CloseSession(c, true, unlinked), [StorageError(SizeMismatch, Upload)])
    else
      var c1 := c.(storage := c.storage.(files := Stored(c.storage.files, s.file.value, payload[..written])));
      if written != |payload| then
        Outcome(CloseSession(c1, true, unlinked), [StorageError(WriteFail, Upload)])
      else
        var s1 := s.(crc := Crc32.Register(s.crc, payload),
                     bytesWritten := Add32(s.bytesWritten, |payload|),
                     expectedSeq := Add32(s.expectedSeq, 1));
        Outcome(c1.(session := s1), [AckOf(s1)])
  }

  function FinishUpload(c: Controller, crc: U32, unlinked: bool): (o: Outcome)
  {
    var s := c.session;
    if !s.active || s.file.None? then Outcome(c, [StorageError(InvalidSession, Upload)])
    else if s.bytesWritten != s.expectedSize then
      Outcome(CloseSession(c, true, unlinked), [StorageError(SizeMismatch, Upload)])
    else if ALL_ONES - s.crc != crc then
      Outcome(CloseSession(c, true, unlinked), [StorageError(CrcFail, Upload)])
    else Outcome(CloseSession(c, false, unlinked), [UploadEnd(s.transferId, s.bytesWritten)])
  }

  function AbortUpload(c: Controller, unlinked: bool): (o: Outcome)
  {
    Outcome(if c.session.active then CloseSession(c, true, unlinked) else c, [UploadAborted])
  }

  // ----- the other storage commands -----

  function EventOf(job: Job): (r: Reply)
  {
    JobEvent(job.loaded, if job.loaded then job.name else "")
  }

  function LoadFile(c: Controller, rawName: string, totalLines: nat): (o: Outcome)
  {
    var name := NameOf(rawName);
    if c.job.running then Outcome(c, [StorageError(Busy, Load)])
    else if name == "" then Outcome(c, [StorageError(MissingParam, Load)])
    else if !ValidName(name) then Outcome(c, [StorageError(InvalidFilename, Load)])
    else if PathOf(name) !in c.storage.files then Outcome(c, [StorageError(FileNotFound, Load)])
    else
      var job := c.job.(loaded := true, name := name, path := PathOf(name), totalLines := totalLines);
      Outcome(c.(job := job), [Loaded(name), EventOf(job)])
  }

  function UnloadJob(job: Job): (j: Job)
  {
    NO_JOB.(lastProgressLine := job.lastProgressLine)
  }

  function UnloadFile(c: Controller): (o: Outcome)
  {
    if c.job.running then Outcome(c, [StorageError(Busy, Unload)])
    else Outcome(c.(job := UnloadJob(c.job)), [Unloaded, EventOf(UnloadJob(c.job))])
  }

  function DeleteFile(c: Controller, rawName: string, unlinked: bool): (o: Outcome)
  {
    var name := NameOf(rawName);
    if c.job.running then Outcome(c, [StorageError(Busy, Delete)])
    else if !ValidName(name) then Outcome(c, [StorageError(InvalidFilename, Delete)])
    else if PathOf(name) !in c.storage.files then Outcome(c, [StorageError(FileNotFound, Delete)])
    else if !unlinked then Outcome(c, [StorageError(WriteFail, Delete)])
    else
      var c1 := c.(storage := c.storage.(files := c.storage.files - {PathOf(name)}));
      if c.job.loaded && c.job.name == name
      then Outcome(c1.(job := UnloadJob(c.job)), [Deleted(name), EventOf(UnloadJob(c.job))])
      else Outcome(c1, [Deleted(name)])
  }

  /** The download command as the rest of the controller sees it; `Download` models the transfer itself. */
  function DownloadFile(c: Controller, rawName: string, openOk: bool, acknowledged: bool): (o: Outcome)
  {
    var name := NameOf(rawName);
    if c.job.running then Outcome(c, [StorageError(Busy, Download)])
    else if !ValidName(name) then Outcome(c, [StorageError(InvalidFilename, Download)])
    else if PathOf(name) !in c.storage.files then Outcome(c, [StorageError(FileNotFound, Download)])
    else if |c.storage.files[PathOf(name)]| > ALL_ONES || !openOk then Outcome(c, [StorageError(ReadFail, Download)])
    else
      var id := c.nextDownloadId;
      Outcome(c.(nextDownloadId := NextId(id)),
              [DownloadReady(id, |c.storage.files[PathOf(name)]|),
               if acknowledged then DownloadEnd(id) else DownloadAborted])
  }

  // ----- the job -----

  function StartJob(c: Controller, started: bool, resumed: bool): (o: Outcome)
  {
    if !c.job.loaded then Outcome(c, [Error(NoJobLoaded)])
    else if c.job.running then Outcome(c, if resumed then [CommandAck(Start)] else [Error(InvalidState)])
    else if started then
      Outcome(c.(job := c.job.(running := true, lastProgressLine := 0)),
              [CommandAck(Start), JobProgress(0, c.job.totalLines)])
    else Outcome(c, [Error(InvalidState), JobError])
  }

  function ResumeJob(c: Controller, resumed: bool): (o: Outcome)
  {
    Outcome(c, if !c.job.running then [Error(NoJobLoaded)]
               else if resumed then [CommandAck(Resume)] else [Error(InvalidState)])
  }

  function PauseJob(c: Controller, paused: bool): (o: Outcome)
  {
    Outcome(c, if !c.job.running then [Error(NoJobLoaded)]
               else if paused then [CommandAck(Pause)] else [Error(InvalidState)])
  }

  function AbortJob(c: Controller, aborted: bool): (o: Outcome)
  {
    if !c.job.running then Outcome(c, [Error(NoJobLoaded)])
    else if aborted then Outcome(c.(job := c.job.(running := false, lastProgressLine := 0)), [CommandAck(Abort)])
    else Outcome(c, [Error(InvalidState)])
  }

  /** The job part of the periodic push task; `line` is what the job stream reports, if it is still open. */
  function PushJob(c: Controller, connected: bool, line: Option<U32>): (o: Outcome)
  {
    var total := if c.job.loaded then c.job.totalLines else 0;
    if !connected || !c.job.running then Outcome(c, [])
    else if line.None? then
      Outcome(c.(job := c.job.(running := false, lastProgressLine := 0)), [JobProgress(total, total), JobComplete])
    else if line.value != c.job.lastProgressLine then
      Outcome(c.(job := c.job.(lastProgressLine := line.value)), [JobProgress(line.value, total)])
    else Outcome(c, [])
  }

  function Handle(c: Controller, command: Command): (o: Outcome)
    requires command.WellFormed()
  {
    match command
    case FileLoad(rawName, totalLines) => LoadFile(c, rawName, totalLines)
    case FileUnload => UnloadFile(c)
    case FileDelete(rawName, unlinked) => DeleteFile(c, rawName, unlinked)
    case FileUpload(rawName, size, overwrite, free, openOk) => BeginUpload(c, rawName, size, overwrite, free, openOk)
    case UploadData(id, sequence, payload, written, unlinked) =>
      HandleUploadData(c, id, sequence, payload, written, unlinked)
    case FileUploadEnd(crc, unlinked) => FinishUpload(c, crc, unlinked)
    case FileUploadAbort(unlinked) => AbortUpload(c, unlinked)
    case FileDownload(rawName, openOk, acknowledged) => DownloadFile(c, rawName, openOk, acknowledged)
    case JobStart(started, resumed) => StartJob(c, started, resumed)
    case JobResume(resumed) => ResumeJob(c, resumed)
    case JobPause(paused) => PauseJob(c, paused)
    case JobAbort(aborted) => AbortJob(c, aborted)
    case PushTask(connected, line) => PushJob(c, connected, line)
  }

  predicate AllWellFormed(commands: seq<Command>)
  {
    forall i :: 0 <= i < |commands| ==> commands[i].WellFormed()
  }

  function Run(c: Controller, commands: seq<Command>): (d: Controller)
    requires AllWellFormed(commands)
    decreases |commands|
  {
    if commands == [] then c else Run(Handle(c, commands[0]).next, commands[1..])
  }
}

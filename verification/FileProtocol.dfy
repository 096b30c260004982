/** The controller's handlers, as the methods that update its static state. Each keeps the invariant of `Lifecycle`, and
    its whole effect is the transition of `Firmware` that the lemmas about runs of commands speak of. */
module FileProtocol {
  import opened Bytes
  import opened Wrappers
  import opened Firmware
  import Crc32
  import L = Lifecycle

  class FileProtocol {
    // the upload session, a struct assigned member by member
    var uploadSession: Session
    // the SD card
    var files: map<string, seq<Byte>>
    var opens: nat
    var closes: nat
    // the job service
    var loaded: bool
    var running: bool
    var loadedName: string
    var loadedPath: string
    var loadedTotalLines: nat
    var lastJobProgressLine: U32
    // transfer identifiers
    var nextUploadTransferId: Byte
    var nextDownloadTransferId: Byte
    const table: seq<U32>

    ghost predicate Valid()
      reads this
    {
      Crc32.IsTable(table) && L.Inv(State())
    }

    ghost function State(): (c: Controller)
      reads this
    {
      Controller(uploadSession,
                 Storage(files, opens, closes),
                 Job(loaded, running, loadedName, loadedPath, loadedTotalLines, lastJobProgressLine),
                 nextUploadTransferId, nextDownloadTransferId)
    }

    constructor (card: map<string, seq<Byte>>)
      ensures Valid()
      ensures State() == Controller(NO_SESSION, Storage(card, 0, 0), NO_JOB, 1, 1)
    {
      var t := Crc32.BuildTable();
      table := t[..];
      uploadSession := NO_SESSION;
      files, opens, closes := card, 0, 0;
      loaded, running, loadedName, loadedPath, loadedTotalLines, lastJobProgressLine := false, false, "", "", 0, 0;
      nextUploadTransferId, nextDownloadTransferId := 1, 1;
    }

    /** Called in the middle of a handler, where the session need not be consistent. */
    method CloseUploadSession(deletePartial: bool, unlinked: bool)
      modifies this`uploadSession, this`files, this`closes
      ensures State() == CloseSession(old(State()), deletePartial, unlinked)
    {
      if uploadSession.file != None {
        closes := closes + 1;
        uploadSession := uploadSession.(file := None);
      }
      if deletePartial && uploadSession.path != "" {
        if unlinked {
          files := files - {uploadSession.path};
        }
      }
      uploadSession := uploadSession.(active := false, transferId := NO_TRANSFER, expectedSize := 0);
      uploadSession := uploadSession.(bytesWritten := 0, expectedSeq := 0, crc := ALL_ONES, path := "");
    }

    /** Reports what the session has stored. */
    method SendUploadAck() returns (reply: Reply)
      requires Valid() && uploadSession.active
      ensures reply == AckOf(State().session)
      ensures uploadSession.path in files ==> reply.committed == |files[uploadSession.path]| % 0x1_0000_0000
    {
      var s := uploadSession;
      reply := UploadAck(s.transferId, if s.expectedSeq == 0 then 0 else s.expectedSeq - 1, s.bytesWritten);
    }

    /** Some(reply) when the command is refused because a job runs. */
    method RejectIfJobRunning(operation: Operation) returns (reply: Option<Reply>)
      ensures reply == if running then Some(StorageError(Busy, operation)) else None
    {
      if !running {
        return None;
      }
      reply := Some(StorageError(Busy, operation));
    }

    /** `id++`, skipping the identifier that means no transfer. */
    method FollowingId(id: Byte) returns (next: Byte)
      ensures next == NextId(id) && next != NO_TRANSFER && next != id
    {
      next := (id + 1) % 0x100;
      if next == NO_TRANSFER {
        next := next + 1;
      }
    }

    method BeginFileUpload(rawName: string, size: U32, overwrite: bool, free: Option<int>, openOk: bool)
      returns (reply: Reply)
      requires Valid()
      modifies this
      ensures Valid() && Outcome(State(), [reply]) == BeginUpload(old(State()), rawName, size, overwrite, free, openOk)
    {
      hide NameOf, ValidName, L.Inv;
      L.BeginKeepsInv(State(), rawName, size, overwrite, free, openOk);
      var rejected := RejectIfJobRunning(Upload);
      if rejected.Some? {
        return rejected.value;
      }
      var name := NameOf(rawName);
      if !ValidName(name) {
        return StorageError(InvalidFilename, Upload);
      }
      if uploadSession.active {
        return StorageError(Busy, Upload);
      }
      if free == None {
        return StorageError(NoSd, Upload);
      }
      if free.value >= 0 && free.value < size {
        return StorageError(NoSpace, Upload);
      }
      if PathOf(name) in files && !overwrite {
        return Error(FileExists);
      }
      if !openOk {
        return StorageError(WriteFail, Upload);
      }
      files, opens := files[PathOf(name) := []], opens + 1;
      uploadSession := Session(true, nextUploadTransferId, size, 0, 0, ALL_ONES, PathOf(name), Some(PathOf(name)));
      nextUploadTransferId := FollowingId(nextUploadTransferId);
      reply := UploadReady(uploadSession.transferId, size, CHUNK_SIZE);
    }

    method ReceiveUploadData(id: Byte, sequence: U32, payload: seq<Byte>, written: nat, unlinked: bool)
      returns (reply: Reply)
      requires Valid() && written <= |payload| <= CHUNK_SIZE
      modifies this
      ensures Valid() && Outcome(State(), [reply]) ==
                         HandleUploadData(old(State()), id, sequence, payload, written, unlinked)
    {
      hide Crc32.Register, Crc32.Running, L.Inv;
      L.DataKeepsInv(State(), id, sequence, payload, written, unlinked);
      L.ActiveHasFile(State());
      if !uploadSession.active || id != uploadSession.transferId || uploadSession.file == None {
        return StorageError(InvalidSession, Upload);
      }
      if sequence < uploadSession.expectedSeq {
        reply := SendUploadAck();
        return;
      }
      if sequence != uploadSession.expectedSeq {
        CloseUploadSession(true, unlinked);
        return StorageError(BadSequence, Upload);
      }
      if Add32(uploadSession.bytesWritten, |payload|) > uploadSession.expectedSize {
        CloseUploadSession(true, unlinked);
        return StorageError(SizeMismatch, Upload);
      }
      WriteFile(uploadSession.file.value, payload[..written]);
      if written != |payload| {
        CloseUploadSession(true, unlinked);
        return StorageError(WriteFail, Upload);
      }
      var crc := Crc32.Update(table, uploadSession.crc, payload);
      uploadSession := uploadSession.(crc := crc);
      uploadSession := uploadSession.(bytesWritten := Add32(uploadSession.bytesWritten, |payload|));
      uploadSession := uploadSession.(expectedSeq := Add32(uploadSession.expectedSeq, 1));
      reply := SendUploadAck();
    }

    /** The effect of `vfs_write` on the card. */
    method WriteFile(path: string, bytes: seq<Byte>)
      modifies this`files
      ensures files == Stored(old(files), path, bytes)
    {
      if path in files {
        files := files[path := files[path] + bytes];
      }
    }

    method FinishFileUpload(expectedCrc: U32, unlinked: bool) returns (reply: Reply)
      requires Valid()
      modifies this
      ensures Valid() && Outcome(State(), [reply]) == FinishUpload(old(State()), expectedCrc, unlinked)
    {
      hide Crc32.Register, Crc32.Running, L.Inv;
      L.HandleKeepsInv(State(), FileUploadEnd(expectedCrc, unlinked));
      if !uploadSession.active || uploadSession.file == None {
        return StorageError(InvalidSession, Upload);
      }
      if uploadSession.bytesWritten != uploadSession.expectedSize {
        CloseUploadSession(true, unlinked);
        return StorageError(SizeMismatch, Upload);
      }
      if ALL_ONES - uploadSession.crc != expectedCrc {
        CloseUploadSession(true, unlinked);
        return StorageError(CrcFail, Upload);
      }
      closes := closes + 1;
      uploadSession := uploadSession.(file := None);
      reply := UploadEnd(uploadSession.transferId, uploadSession.bytesWritten);
      CloseUploadSession(false, unlinked);
    }

    method AbortFileUpload(unlinked: bool) returns (reply: Reply)
      requires Valid()
      modifies this
      ensures Valid() && Outcome(State(), [reply]) == AbortUpload(old(State()), unlinked)
    {
      hide L.Inv;
      L.HandleKeepsInv(State(), FileUploadAbort(unlinked));
      if uploadSession.active {
        CloseUploadSession(true, unlinked);
      }
      reply := UploadAborted;
    }

    method UnloadJobService()
      modifies this`running, this`loaded, this`loadedName, this`loadedPath, this`loadedTotalLines
      ensures State() == old(State()).(job := UnloadJob(old(State()).job))
    {
      running := false;
      loaded := false;
      loadedName := "";
      loadedPath := "";
      loadedTotalLines := 0;
    }

    method SendFileLoad(rawName: string, totalLines: nat) returns (replies: seq<Reply>)
      requires Valid()
      modifies this
      ensures Valid() && Outcome(State(), replies) == LoadFile(old(State()), rawName, totalLines)
    {
      hide NameOf, ValidName, L.Inv;
      L.HandleKeepsInv(State(), FileLoad(rawName, totalLines));
      var rejected := RejectIfJobRunning(Load);
      if rejected.Some? {
        return [rejected.value];
      }
      var name := NameOf(rawName);
      if name == "" {
        return [StorageError(MissingParam, Load)];
      }
      if !ValidName(name) {
        return [StorageError(InvalidFilename, Load)];
      }
      if PathOf(name) !in files {
        return [StorageError(FileNotFound, Load)];
      }
      loadedName, loadedPath, loadedTotalLines, loaded := name, PathOf(name), totalLines, true;
      replies := [Loaded(name), JobEvent(loaded, loadedName)];
    }

    method SendFileUnload() returns (replies: seq<Reply>)
      requires Valid()
      modifies this
      ensures Valid() && Outcome(State(), replies) == UnloadFile(old(State()))
    {
      hide NameOf, ValidName, L.Inv;
      L.HandleKeepsInv(State(), FileUnload);
      var rejected := RejectIfJobRunning(Unload);
      if rejected.Some? {
        return [rejected.value];
      }
      UnloadJobService();
      replies := [Unloaded, JobEvent(false, "")];
    }

    method SendFileDelete(rawName: string, unlinked: bool) returns (replies: seq<Reply>)
      requires Valid()
      modifies this
      ensures Valid() && Outcome(State(), replies) == DeleteFile(old(State()), rawName, unlinked)
    {
      hide NameOf, L.Inv;
      L.HandleKeepsInv(State(), FileDelete(rawName, unlinked));
      var rejected := RejectIfJobRunning(Delete);
      if rejected.Some? {
        return [rejected.value];
      }
      var name := NameOf(rawName);
      if !ValidName(name) {
        return [StorageError(InvalidFilename, Delete)];
      }
      if PathOf(name) !in files {
        return [StorageError(FileNotFound, Delete)];
      }
      if !unlinked {
        return [StorageError(WriteFail, Delete)];
      }
      files := files - {PathOf(name)};
      replies := [Deleted(name)];
      if (if loaded then loadedName else "") == name {
        UnloadJobService();
        replies := replies + [JobEvent(false, "")];
      }
    }

    method SendFileDownload(rawName: string, openOk: bool, acknowledged: bool) returns (replies: seq<Reply>)
      requires Valid()
      modifies this
      ensures Valid() && Outcome(State(), replies) == DownloadFile(old(State()), rawName, openOk, acknowledged)
    {
      hide NameOf, ValidName, L.Inv;
      L.HandleKeepsInv(State(), FileDownload(rawName, openOk, acknowledged));
      var rejected := RejectIfJobRunning(Download);
      if rejected.Some? {
        return [rejected.value];
      }
      var name := NameOf(rawName);
      if !ValidName(name) {
        return [StorageError(InvalidFilename, Download)];
      }
      if PathOf(name) !in files {
        return [StorageError(FileNotFound, Download)];
      }
      if |files[PathOf(name)]| > ALL_ONES {
        return [StorageError(ReadFail, Download)];
      }
      if !openOk {
        return [StorageError(ReadFail, Download)];
      }
      var id := nextDownloadTransferId;
      nextDownloadTransferId := FollowingId(nextDownloadTransferId);
      replies := [DownloadReady(id, |files[PathOf(name)]|)];
      replies := replies + [if acknowledged then DownloadEnd(id) else DownloadAborted];
    }

    method StartLoadedJob(started: bool, resumed: bool) returns (replies: seq<Reply>)
      requires Valid()
      modifies this
      ensures Valid() && Outcome(State(), replies) == StartJob(old(State()), started, resumed)
    {
      hide NameOf, ValidName, L.Inv;
      L.HandleKeepsInv(State(), JobStart(started, resumed));
      if !loaded {
        return [Error(NoJobLoaded)];
      }
      if running {
        return if resumed then [CommandAck(Start)] else [Error(InvalidState)];
      }
      if started {
        running := true;
        lastJobProgressLine := 0;
        replies := [CommandAck(Start), JobProgress(0, loadedTotalLines)];
      } else {
        replies := [Error(InvalidState), JobError];
      }
    }

    method ResumeRunningJob(resumed: bool) returns (replies: seq<Reply>)
      ensures Outcome(State(), replies) == ResumeJob(State(), resumed)
    {
      if !running {
        replies := [Error(NoJobLoaded)];
      } else if resumed {
        replies := [CommandAck(Resume)];
      } else {
        replies := [Error(InvalidState)];
      }
    }

    method PauseRunningJob(paused: bool) returns (replies: seq<Reply>)
      ensures Outcome(State(), replies) == PauseJob(State(), paused)
    {
      if !running {
        replies := [Error(NoJobLoaded)];
      } else if paused {
        replies := [CommandAck(Pause)];
      } else {
        replies := [Error(InvalidState)];
      }
    }

    method AbortRunningJob(aborted: bool) returns (replies: seq<Reply>)
      requires Valid()
      modifies this
      ensures Valid() && Outcome(State(), replies) == AbortJob(old(State()), aborted)
    {
      hide NameOf, ValidName, L.Inv;
      L.HandleKeepsInv(State(), JobAbort(aborted));
      if !running {
        replies := [Error(NoJobLoaded)];
      } else if aborted {
        running := false;
        lastJobProgressLine := 0;
        replies := [CommandAck(Abort)];
      } else {
        replies := [Error(InvalidState)];
      }
    }

    method PushJobState(connected: bool, line: Option<U32>) returns (replies: seq<Reply>)
      requires Valid()
      modifies this
      ensures Valid() && Outcome(State(), replies) == PushJob(old(State()), connected, line)
    {
      hide NameOf, ValidName, L.Inv;
      L.HandleKeepsInv(State(), PushTask(connected, line));
      replies := [];
      if connected && running {
        var total := if loaded then loadedTotalLines else 0;
        if line != None {
          if line.value != lastJobProgressLine {
            lastJobProgressLine := line.value;
            replies := [JobProgress(line.value, total)];
          }
        } else {
          running := false;
          lastJobProgressLine := 0;
          replies := [JobProgress(total, total), JobComplete];
        }
      }
    }

    /** The dispatcher. */
    method HandleCommand(command: Command) returns (replies: seq<Reply>)
      requires Valid() && command.WellFormed()
      modifies this
      ensures Valid() && Outcome(State(), replies) == Handle(old(State()), command)
    {
      hide LoadFile, UnloadFile, DeleteFile, BeginUpload, HandleUploadData, FinishUpload, AbortUpload, DownloadFile;
      hide StartJob, ResumeJob, PauseJob, AbortJob, PushJob, L.Inv;
      var reply: Reply;
      match command
      case FileLoad(rawName, totalLines) => replies := SendFileLoad(rawName, totalLines);
      case FileUnload => replies := SendFileUnload();
      case FileDelete(rawName, unlinked) => replies := SendFileDelete(rawName, unlinked);
      case FileUpload(rawName, size, overwrite, free, openOk) =>
        reply := BeginFileUpload(rawName, size, overwrite, free, openOk);
        replies := [reply];
      case UploadData(id, sequence, payload, written, unlinked) =>
        reply := ReceiveUploadData(id, sequence, payload, written, unlinked);
        replies := [reply];
      case FileUploadEnd(crc, unlinked) =>
        reply := FinishFileUpload(crc, unlinked);
        replies := [reply];
      case FileUploadAbort(unlinked) =>
        reply := AbortFileUpload(unlinked);
        replies := [reply];
      case FileDownload(rawName, openOk, acknowledged) => replies := SendFileDownload(rawName, openOk, acknowledged);
      case JobStart(started, resumed) => replies := StartLoadedJob(started, resumed);
      case JobResume(resumed) => replies := ResumeRunningJob(resumed);
      case JobPause(paused) => replies := PauseRunningJob(paused);
      case JobAbort(aborted) => replies := AbortRunningJob(aborted);
      case PushTask(connected, line) => replies := PushJobState(connected, line);
    }
  }
}

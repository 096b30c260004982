/** What holds of the controller between any two commands, over every sequence of commands. */
module Lifecycle {
  import opened Bytes
  import opened Wrappers
  import opened Firmware
  import Crc32

  // ----- the session invariant -----

  ghost predicate SessionInv(c: Controller)
  {
    var s, files := c.session, c.storage.files;
    && (s.active <==> s.file.Some?)
    && (!s.active ==> s == NO_SESSION)
    && (s.active ==> s.file == Some(s.path) && s.transferId != NO_TRANSFER)
    && (s.active ==> s.path != "" && s.path == PathOf(s.path[1..]) && ValidName(s.path[1..]))
    && s.bytesWritten <= s.expectedSize
    && c.storage.opens == c.storage.closes + (if s.active then 1 else 0)
    && c.nextUploadId != NO_TRANSFER && c.nextDownloadId != NO_TRANSFER
    && (s.active && s.path in files ==>
          && s.crc == Crc32.Running(files[s.path])
          && s.bytesWritten == |files[s.path]| % 0x1_0000_0000
          && (s.expectedSize <= MAX_UNWRAPPED ==> s.bytesWritten == |files[s.path]|))
  }

  ghost predicate JobInv(c: Controller)
  {
    && (c.job.running ==> c.job.loaded)
    && (c.job.loaded ==> ValidName(c.job.name) && c.job.path == PathOf(c.job.name))
    && (!c.job.loaded ==> c.job.name == "" && c.job.path == "" && c.job.totalLines == 0)
  }

  ghost predicate Inv(c: Controller)
  {
    SessionInv(c) && JobInv(c)
  }

  /** Power-up: no session, no job, and whatever the card already holds. */
  ghost predicate Initial(c: Controller)
  {
    c.session == NO_SESSION && c.job == NO_JOB && c.storage.opens == c.storage.closes == 0
    && c.nextUploadId == 1 && c.nextDownloadId == 1
  }

  lemma {:induction false} ActiveHasFile(c: Controller)
    requires Inv(c)
    ensures c.session.active <==> c.session.file.Some?
  {
  }

  lemma {:induction false} CloseKeepsInv(c: Controller, deletePartial: bool, unlinked: bool)
    requires Inv(c)
    ensures Inv(CloseSession(c, deletePartial, unlinked))
  {
  }

  /** One more full payload: the file, the byte count and the running check stay in step. */
  lemma {:induction false} AppendKeepsStep(file: seq<Byte>, payload: seq<Byte>, bytesWritten: U32, expectedSize: U32)
    requires |payload| <= CHUNK_SIZE && bytesWritten <= expectedSize && bytesWritten == |file| % 0x1_0000_0000
    requires expectedSize <= MAX_UNWRAPPED ==> bytesWritten == |file|
    ensures Crc32.Running(file + payload) == Crc32.Register(Crc32.Running(file), payload)
    ensures Add32(bytesWritten, |payload|) == |file + payload| % 0x1_0000_0000
    ensures expectedSize <= MAX_UNWRAPPED ==> Add32(bytesWritten, |payload|) == |file + payload|
  {
    hide Crc32.Register, Crc32.Running;
    Crc32.RunningAppend(file, payload);
    WrapOnce(|file|, |payload|);
  }

  lemma {:induction false} WrapOnce(m: nat, n: nat)
    ensures (m % 0x1_0000_0000 + n) % 0x1_0000_0000 == (m + n) % 0x1_0000_0000
  {
    var q := m / 0x1_0000_0000;
    assert m + n == m % 0x1_0000_0000 + n + q * 0x1_0000_0000;
  }

  lemma {:induction false} DataKeepsInv(c: Controller, id: Byte, sequence: U32, payload: seq<Byte>, written: nat,
                                        unlinked: bool)
    requires Inv(c) && |payload| <= CHUNK_SIZE && written <= |payload|
    ensures Inv(HandleUploadData(c, id, sequence, payload, written, unlinked).next)
  {
    hide Crc32.Register, Crc32.Running;
    var s := c.session;
    if s.active {
      if s.path in c.storage.files {
        AppendKeepsStep(c.storage.files[s.path], payload, s.bytesWritten, s.expectedSize);
      }
      assert payload[..|payload|] == payload;
    }
  }

  lemma {:induction false} BeginKeepsInv(c: Controller, rawName: string, size: U32, overwrite: bool,
                                         free: Option<int>, openOk: bool)
    requires Inv(c)
    ensures Inv(BeginUpload(c, rawName, size, overwrite, free, openOk).next)
  {
    assert PathOf(NameOf(rawName))[1..] == NameOf(rawName);
    assert Crc32.Running([]) == ALL_ONES;
  }

  /** Commands that do not start or feed an upload: each leaves the session alone, or closes it. */
  lemma {:induction false} OtherKeepsInv(c: Controller, command: Command)
    requires Inv(c) && command.WellFormed() && !command.UploadData? && !command.FileUpload?
    ensures Inv(Handle(c, command).next)
  {
    hide Crc32.Register, Crc32.Running;
    match command
    case FileUploadEnd(crc, unlinked) =>
      CloseKeepsInv(c, true, unlinked);
      CloseKeepsInv(c, false, unlinked);
    case FileUploadAbort(unlinked) => CloseKeepsInv(c, true, unlinked);
    case _ =>
  }

  lemma {:induction false} HandleKeepsInv(c: Controller, command: Command)
    requires Inv(c) && command.WellFormed()
    ensures Inv(Handle(c, command).next)
  {
    hide Inv, HandleUploadData, BeginUpload;
    match command
    case UploadData(id, sequence, payload, written, unlinked) =>
      DataKeepsInv(c, id, sequence, payload, written, unlinked);
    case FileUpload(rawName, size, overwrite, free, openOk) =>
      BeginKeepsInv(c, rawName, size, overwrite, free, openOk);
    case _ => OtherKeepsInv(c, command);
  }

  /** The invariant holds after every sequence of commands. */
  lemma {:induction false} InvAlways(c: Controller, commands: seq<Command>)
    requires Inv(c) && AllWellFormed(commands)
    ensures Inv(Run(c, commands))
    decreases |commands|
  {
    hide Inv, Handle;
    if commands != [] {
      HandleKeepsInv(c, commands[0]);
      InvAlways(Handle(c, commands[0]).next, commands[1..]);
    }
  }

  lemma {:induction false} InvFromPowerUp(c: Controller, commands: seq<Command>)
    requires Initial(c) && AllWellFormed(commands)
    ensures Inv(Run(c, commands))
  {
    InvAlways(c, commands);
  }

  /** An acknowledgement reports what is on the card: the transfer, the last chunk taken, and the bytes stored. */
  lemma {:induction false} AckReportsStored(c: Controller, command: Command, reply: Reply)
    requires Inv(c) && command.WellFormed() && reply in Handle(c, command).replies && reply.UploadAck?
    ensures var d := Handle(c, command).next;
      && d.session.active && reply.transferId == d.session.transferId
      && (d.session.expectedSeq > 0 ==> reply.sequence == d.session.expectedSeq - 1)
      && (d.session.path in d.storage.files ==>
            reply.committed == |d.storage.files[d.session.path]| % 0x1_0000_0000)
  {
    hide Handle, HandleUploadData;
    HandleKeepsInv(c, command);
    OnlyDataIsAcked(c, command, reply);
    HandleData(c, command);
    AckFollowsState(c, command.transferId, command.sequence, command.payload, command.written, command.unlinked);
  }

  lemma {:induction false} OnlyDataIsAcked(c: Controller, command: Command, reply: Reply)
    requires command.WellFormed() && reply in Handle(c, command).replies && reply.UploadAck?
    ensures command.UploadData?
  {
  }

  lemma {:induction false} HandleData(c: Controller, command: Command)
    requires command.WellFormed() && command.UploadData?
    ensures Handle(c, command) == HandleUploadData(c, command.transferId, command.sequence, command.payload,
                                                   command.written, command.unlinked)
  {
  }

  /** An acknowledgement is made from the session as it then is. */
  lemma {:induction false} AckFollowsState(c: Controller, id: Byte, sequence: U32, payload: seq<Byte>, written: nat,
                                           unlinked: bool)
    requires |payload| <= CHUNK_SIZE && written <= |payload|
    ensures var o := HandleUploadData(c, id, sequence, payload, written, unlinked);
      forall r :: r in o.replies && r.UploadAck? ==> o.next.session.active && r == AckOf(o.next.session)
  {
    hide Crc32.Register, Crc32.Running, Stored;
  }

  /** Where the 32-bit byte count stops matching the file: exactly when the sum wraps, which only sizes above the bound
      allow. */
  lemma {:induction false} CountFollowsFileIff(c: Controller, id: Byte, sequence: U32, payload: seq<Byte>,
                                               unlinked: bool)
    requires Inv(c) && c.session.active && |payload| <= CHUNK_SIZE && c.session.path in c.storage.files
    requires c.session.bytesWritten == |c.storage.files[c.session.path]|
    requires var s := HandleUploadData(c, id, sequence, payload, |payload|, unlinked).next.session;
      s.active && s != c.session
    ensures var d := HandleUploadData(c, id, sequence, payload, |payload|, unlinked).next;
      d.session.bytesWritten == |d.storage.files[d.session.path]|
      <==> |c.storage.files[c.session.path]| + |payload| <= ALL_ONES
  {
    hide Crc32.Register, Crc32.Running;
    assert payload[..|payload|] == payload;
  }

  // ----- how a session ends -----

  /** An active session ends in one of two ways: reported complete, with the whole checked file in place, or with the
      file gone, if the card lets it be unlinked. */
  lemma {:induction false} SessionOutcome(c: Controller, command: Command)
    requires Inv(c) && c.session.active && command.WellFormed() && !Handle(c, command).next.session.active
    ensures command.UploadData? || command.FileUploadEnd? || command.FileUploadAbort?
    ensures var o := Handle(c, command);
            var path, before, after := c.session.path, c.storage.files, o.next.storage.files;
            && o.next.storage.closes == c.storage.closes + 1 && o.next.storage.opens == c.storage.opens
            && (if exists i :: 0 <= i < |o.replies| && o.replies[i].UploadEnd?
                then
                  && after == before
                  && c.session.bytesWritten == c.session.expectedSize
                  && command.FileUploadEnd?
                  && (path in after ==> Crc32.Checksum(after[path]) == command.crc)
                  && (path in after && c.session.expectedSize <= MAX_UNWRAPPED ==>
                        |after[path]| == c.session.expectedSize)
                else path in after <==> path in before && !command.unlinked)
  {
    var o := Handle(c, command);
    assert command.UploadData? || command.FileUploadEnd? || command.FileUploadAbort?;
    if command.FileUploadEnd? && o.replies == [UploadEnd(c.session.transferId, c.session.bytesWritten)] {
      assert o.replies[0].UploadEnd?;
    }
  }

  /** The file being uploaded stays on the card for as long as the session, unless it is deleted by name meanwhile. */
  lemma {:induction false} TargetStaysIff(c: Controller, command: Command)
    requires Inv(c) && c.session.active && c.session.path in c.storage.files && command.WellFormed()
    requires Handle(c, command).next.session.active
    ensures c.session.path !in Handle(c, command).next.storage.files
       <==> !c.job.running && command.FileDelete? && command.unlinked
              && PathOf(NameOf(command.rawName)) == c.session.path
  {
    if command.FileDelete? && PathOf(NameOf(command.rawName)) == c.session.path {
      assert NameOf(command.rawName) == c.session.path[1..];
    }
  }

  /** The paths a command may touch. */
  ghost function Touches(c: Controller, command: Command): (paths: set<string>)
  {
    match command
    case FileDelete(rawName, _) => {PathOf(NameOf(rawName))}
    case FileUpload(rawName, _, _, _, _) => if c.session.active then {} else {PathOf(NameOf(rawName))}
    case UploadData(_, _, _, _, _) => {c.session.path}
    case FileUploadEnd(_, _) => if c.session.active then {c.session.path} else {}
    case FileUploadAbort(_) => if c.session.active then {c.session.path} else {}
    case _ => {}
  }

  lemma {:induction false} NoOtherPathChanges(c: Controller, command: Command, path: string)
    requires Inv(c) && command.WellFormed() && path !in Touches(c, command)
    ensures path in Handle(c, command).next.storage.files <==> path in c.storage.files
    ensures path in c.storage.files ==> Handle(c, command).next.storage.files[path] == c.storage.files[path]
  {
  }

  // ----- jobs -----

  /** While a job runs, storage commands that would disturb it are refused and change nothing at all. */
  lemma {:induction false} RunningJobBlocksStorage(c: Controller, command: Command)
    requires c.job.running && command.WellFormed()
    requires command.FileLoad? || command.FileUnload? || command.FileDelete? || command.FileUpload?
          || command.FileDownload?
    ensures Handle(c, command).next == c
    ensures |Handle(c, command).replies| == 1 && Handle(c, command).replies[0].StorageError?
         && Handle(c, command).replies[0].error == Busy
  {
  }

  /** Over any run of commands during which the job keeps running, what is loaded stays the same. */
  lemma {:induction false} LoadedJobIsStable(c: Controller, commands: seq<Command>)
    requires AllWellFormed(commands)
    requires forall i :: 0 <= i < |commands| ==> Run(c, commands[..i]).job.running
    ensures var j := Run(c, commands).job;
            j.loaded == c.job.loaded && j.name == c.job.name && j.path == c.job.path && j.totalLines == c.job.totalLines
    decreases |commands|
  {
    if commands != [] {
      var next := Handle(c, commands[0]).next;
      assert Run(c, commands[..0]).job.running;
      SameJobWhileRunning(c, commands[0]);
      hide Handle;
      forall i | 0 <= i < |commands[1..]| ensures Run(next, commands[1..][..i]).job.running {
        assert commands[..i + 1][1..] == commands[1..][..i];
        assert Run(c, commands[..i + 1]).job.running;
      }
      LoadedJobIsStable(next, commands[1..]);
    }
  }

  lemma {:induction false} SameJobWhileRunning(c: Controller, command: Command)
    requires c.job.running && command.WellFormed()
    ensures var j := Handle(c, command).next.job;
            j.loaded == c.job.loaded && j.name == c.job.name && j.path == c.job.path && j.totalLines == c.job.totalLines
  {
  }

  ghost predicate Starts(c: Controller, command: Command)
    requires command.WellFormed()
  {
    !c.job.running && Handle(c, command).next.job.running
  }

  /** The controller tells the desktop that the job is over: completed, or aborted on request. */
  ghost predicate Ends(c: Controller, command: Command)
    requires command.WellFormed()
  {
    JobComplete in Handle(c, command).replies || CommandAck(Abort) in Handle(c, command).replies
  }

  ghost function CountStarts(c: Controller, commands: seq<Command>): (n: nat)
    requires AllWellFormed(commands)
    decreases |commands|
  {
    if commands == [] then 0
    else (if Starts(c, commands[0]) then 1 else 0) + CountStarts(Handle(c, commands[0]).next, commands[1..])
  }

  ghost function CountEnds(c: Controller, commands: seq<Command>): (n: nat)
    requires AllWellFormed(commands)
    decreases |commands|
  {
    if commands == [] then 0
    else (if Ends(c, commands[0]) then 1 else 0) + CountEnds(Handle(c, commands[0]).next, commands[1..])
  }

  /** A job ends exactly when the controller says so, and no reply announces an end of a job that is not running. */
  lemma {:induction false} EndsExactlyRunningJobs(c: Controller, command: Command)
    requires Inv(c) && command.WellFormed()
    ensures Ends(c, command) <==> c.job.running && !Handle(c, command).next.job.running
  {
    hide SessionInv, Crc32.Register, NameOf, ValidName, Stored;
  }

  /** Starts and announced ends alternate: each start is ended at most once, and is open only if a job runs now. */
  lemma {:induction false} EachStartEndsAtMostOnce(c: Controller, commands: seq<Command>)
    requires Inv(c) && AllWellFormed(commands)
    ensures (if c.job.running then 1 else 0) + CountStarts(c, commands)
         == CountEnds(c, commands) + (if Run(c, commands).job.running then 1 else 0)
    decreases |commands|
  {
    if commands != [] {
      EndsExactlyRunningJobs(c, commands[0]);
      HandleKeepsInv(c, commands[0]);
      hide Handle, Inv, Ends;
      EachStartEndsAtMostOnce(Handle(c, commands[0]).next, commands[1..]);
    }
  }
}

/** Transfer identifiers over many uploads: when one comes back, and what frames of a finished transfer can do. */
module TransferIds {
  import opened Bytes
  import opened Wrappers
  import opened Firmware
  import Crc32

  // ----- the cycle of identifiers -----

  /** The identifier `n` uploads after `id`. */
  function After(id: Byte, n: nat): (later: Byte)
    decreases n
  {
    if n == 0 then id else NextId(After(id, n - 1))
  }

  lemma {:induction false} AfterIsCyclic(id: Byte, n: nat)
    requires id != NO_TRANSFER
    ensures After(id, n) == (id - 1 + n) % 255 + 1
    decreases n
  {
    hide NextId;
    if n > 0 {
      AfterIsCyclic(id, n - 1);
      OneFurther(id - 1 + n - 1);
      NextIdIs((id - 1 + n - 1) % 255);
    }
  }

  lemma {:induction false} NextIdIs(r: nat)
    requires r < 255
    ensures NextId(r + 1) == if r == 254 then 1 else r + 2
  {
  }

  lemma {:induction false} OneFurther(m: nat)
    ensures (m + 1) % 255 == if m % 255 == 254 then 0 else m % 255 + 1
  {
  }

  /** The identifier for no transfer is never given out, and any other returns after 255 uploads, no sooner. */
  lemma {:induction false} IdReturnsIff(id: Byte, n: nat)
    requires id != NO_TRANSFER
    ensures After(id, n) != NO_TRANSFER
    ensures After(id, n) == id <==> n % 255 == 0
  {
    AfterIsCyclic(id, n);
    RemainderOf(n / 255, n % 255 + (id - 1));
  }

  lemma {:induction false} RemainderOf(q: nat, r: nat)
    requires r < 2 * 255
    ensures (q * 255 + r) % 255 == if r < 255 then r else r - 255
  {
    if r >= 255 {
      assert q * 255 + r == (q + 1) * 255 + (r - 255);
    }
  }

  // ----- over every sequence of commands -----

  ghost predicate StartsUpload(c: Controller, command: Command)
    requires command.WellFormed()
  {
    !c.session.active && Handle(c, command).next.session.active
  }

  ghost function CountUploads(c: Controller, commands: seq<Command>): (n: nat)
    requires AllWellFormed(commands)
    decreases |commands|
  {
    if commands == [] then 0
    else (if StartsUpload(c, commands[0]) then 1 else 0) + CountUploads(Handle(c, commands[0]).next, commands[1..])
  }

  /** No upload among the commands is given the identifier `id`. */
  ghost predicate NeverGivenOut(c: Controller, commands: seq<Command>, id: Byte)
    requires AllWellFormed(commands)
    decreases |commands|
  {
    commands != [] ==>
      && (StartsUpload(c, commands[0]) ==> c.nextUploadId != id)
      && NeverGivenOut(Handle(c, commands[0]).next, commands[1..], id)
  }

  /** Only a new upload changes the transfer of the session, and it takes the next identifier. */
  lemma {:induction false} IdStep(c: Controller, command: Command)
    requires command.WellFormed()
    ensures var d := Handle(c, command).next;
      && d.nextUploadId == (if StartsUpload(c, command) then NextId(c.nextUploadId) else c.nextUploadId)
      && (d.session.active ==>
            d.session.transferId == if StartsUpload(c, command) then c.nextUploadId else c.session.transferId)
  {
    hide Crc32.Register, NameOf, ValidName, Stored, NextId;
  }

  lemma {:induction false} NotGivenOutAgain(c: Controller, commands: seq<Command>, id: Byte, k: nat)
    requires AllWellFormed(commands) && id != NO_TRANSFER
    requires c.nextUploadId == After(id, k + 1) && k + CountUploads(c, commands) <= 254
    ensures NeverGivenOut(c, commands, id)
    decreases |commands|
  {
    hide Handle, StartsUpload, NextId;
    if commands != [] {
      IdStep(c, commands[0]);
      IdReturnsIff(id, k + 1);
      var started := if StartsUpload(c, commands[0]) then k + 1 else k;
      NotGivenOutAgain(Handle(c, commands[0]).next, commands[1..], id, started);
    }
  }

  /** A transfer keeps its identifier to itself over the next 254 uploads. */
  lemma {:induction false} IdIsFreshFor254Uploads(c: Controller, commands: seq<Command>)
    requires AllWellFormed(commands) && c.session.active && c.session.transferId != NO_TRANSFER
    requires c.nextUploadId == NextId(c.session.transferId) && CountUploads(c, commands) <= 254
    ensures NeverGivenOut(c, commands, c.session.transferId)
  {
    assert After(c.session.transferId, 0) == c.session.transferId;
    NotGivenOutAgain(c, commands, c.session.transferId, 0);
  }

  // ----- late frames -----

  /** The commands without the data frames of one transfer. */
  function Without(commands: seq<Command>, id: Byte): (others: seq<Command>)
    decreases |commands|
  {
    if commands == [] then []
    else
      var dropped := commands[0].UploadData? && commands[0].transferId == id;
      (if dropped then [] else [commands[0]]) + Without(commands[1..], id)
  }

  lemma {:induction false} LateFrameIsRefused(c: Controller, command: Command, id: Byte)
    requires !Owns(c, id) && command.WellFormed() && command.UploadData? && command.transferId == id
    ensures Handle(c, command) == Outcome(c, [StorageError(InvalidSession, Operation.Upload)])
  {
  }

  /** Data frames of a transfer that has no session, however many and wherever they arrive among other commands and
      later uploads, change nothing: the controller ends as if they had never arrived. */
  lemma {:induction false} LateFramesChangeNothing(c: Controller, commands: seq<Command>, id: Byte)
    requires !Owns(c, id) && AllWellFormed(commands) && NeverGivenOut(c, commands, id)
    ensures AllWellFormed(Without(commands, id)) && Run(c, Without(commands, id)) == Run(c, commands)
    decreases |commands|
  {
    hide Handle, StartsUpload;
    if commands != [] {
      var command, rest := commands[0], commands[1..];
      var d := Handle(c, command).next;
      if command.UploadData? && command.transferId == id {
        LateFrameIsRefused(c, command, id);
        LateFramesChangeNothing(c, rest, id);
        assert [] + Without(rest, id) == Without(rest, id);
      } else {
        IdStep(c, command);
        SessionStays(c, command);
        LateFramesChangeNothing(d, rest, id);
        assert ([command] + Without(rest, id))[1..] == Without(rest, id);
      }
    }
  }

  lemma {:induction false} SessionStays(c: Controller, command: Command)
    requires command.WellFormed()
    ensures Handle(c, command).next.session.active ==> c.session.active || StartsUpload(c, command)
  {
  }
}

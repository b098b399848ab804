/** The pre-reboot update sequence against a peer that answers as it likes. */
module Preboot {
  import opened Message
  import opened Gpt

  const MSG_QUERY_IMAGES: u32 := 6
  const MSG_GET_BOOTINFO: u32 := 11
  const MSG_GET_OTA_METADATAINFO: u32 := 19

  const PRIMARY_GPT: u32 := 0
  const PARTITION_B: u32 := 1
  const FLASH_AND_MARK: u32 := 2

  datatype Command =
    | CheckGpt
    | GetMetadataInfo
    | GetMetadata
    | GetBootInfo(images: nat)
    | FlashImage(name: string, gpt: u32, partition: u32, flashType: u32)
    | UpdateGpt(images: nat, gpt: u32)

  /** What happens. Received: one whole message, any bytes. Copied: the boot partitions read out
      of the shared buffer, none when no image was named. Prepared: the outcome of a local
      step, which fills the shared buffer or loads a file into it. */
  datatype Event =
    | Asked(command: Command, sent: bool)
    | Received(bytes: seq<bv8>)
    | Silence
    | Copied(partitions: seq<u32>)
    | Prepared(ok: bool)
    | Reboot

  /** Channels, files and shared buffer, with a peer that does as it likes; log is what
      happened. */
  class Board {
    var log: seq<Event>

    constructor ()
      ensures log == []
    {
      log := [];
    }

    method Send(command: Command) returns (sent: bool)
      modifies this
      ensures log == old(log) + [Asked(command, sent)]
    {
      sent := *;
      log := log + [Asked(command, sent)];
    }

    method Receive(buf: array<bv8>) returns (ok: bool)
      requires buf.Length == MESSAGE_SIZE
      modifies this, buf
      ensures log == old(log) + [if ok then Received(buf[..]) else Silence]
    {
      ok := *;
      forall k | 0 <= k < MESSAGE_SIZE {
        buf[k] := *;
      }
      log := log + [if ok then Received(buf[..]) else Silence];
    }

    /** The boot partition fields of n entries in the shared buffer. */
    method CopyEntries(n: nat) returns (partitions: seq<u32>)
      modifies this
      ensures |partitions| == n && log == old(log) + [Copied(partitions)]
    {
      partitions := [];
      while |partitions| < n
        invariant |partitions| <= n && log == old(log)
      {
        var p: u32 := *;
        partitions := partitions + [p];
      }
      log := log + [Copied(partitions)];
    }

    method Prepare() returns (ok: bool)
      modifies this
      ensures log == old(log) + [Prepared(ok)]
    {
      ok := *;
      log := log + [Prepared(ok)];
    }

    method RequestReboot()
      modifies this
      ensures log == old(log) + [Reboot]
    {
      log := log + [Reboot];
    }
  }

  // ---- reading the log ----

  function MessageId(m: seq<bv8>): u32
    requires |m| == MESSAGE_SIZE
  {
    Word(m, 8)
  }

  /** A reply of one kind whose checksum is right. */
  predicate Verified(e: Event, id: u32) {
    e.Received? && |e.bytes| == MESSAGE_SIZE && Intact(e.bytes) && MessageId(e.bytes) == id
  }

  /** A boot information reply whose checksum is right. */
  predicate VerifiedBootInfo(e: Event) {
    Verified(e, MSG_GET_BOOTINFO)
  }

  /** The four table checksum flags of such a reply. */
  function Flags(m: seq<bv8>): (u32, u32, u32, u32)
    requires |m| == MESSAGE_SIZE
  {
    (Word(m, 20), Word(m, 24), Word(m, 32), Word(m, 36))
  }

  /** The number of images that a verified reply names. */
  function ImageCount(e: Event, previous: u32): u32 {
    if Verified(e, MSG_QUERY_IMAGES) then Word(e.bytes, 20)
    else if Verified(e, MSG_GET_BOOTINFO) then Word(e.bytes, 44)
    else previous
  }

  function MetadataSize(e: Event, previous: u32): u32 {
    if Verified(e, MSG_GET_OTA_METADATAINFO) then Word(e.bytes, 20) else previous
  }

  /** The flags of the last verified boot information reply, all 0 before the first. */
  function LastFlags(log: seq<Event>): (u32, u32, u32, u32) {
    if log == [] then (0, 0, 0, 0)
    else if VerifiedBootInfo(log[|log| - 1]) then Flags(log[|log| - 1].bytes)
    else LastFlags(log[..|log| - 1])
  }

  /** The status that the last received message carried, right or wrong, 0 before the first. */
  function LastStatus(log: seq<Event>): u32 {
    if log == [] then 0
    else if Carries(log[|log| - 1]) then Status(log[|log| - 1].bytes)
    else LastStatus(log[..|log| - 1])
  }

  predicate Carries(e: Event) {
    e.Received? && |e.bytes| == MESSAGE_SIZE
  }

  function Status(m: seq<bv8>): u32
    requires |m| == MESSAGE_SIZE
  {
    Word(m, 16)
  }

  /** What the handler may take from an event, case by case. */
  lemma ReplyFields(e: Event, images: u32, size: u32)
    ensures !e.Received? || |e.bytes| != MESSAGE_SIZE || !Intact(e.bytes) ==>
      (!VerifiedBootInfo(e) && ImageCount(e, images) == images && MetadataSize(e, size) == size)
    ensures e.Received? && |e.bytes| == MESSAGE_SIZE && Intact(e.bytes) ==>
      (var id := Word(e.bytes, 8);
       && (VerifiedBootInfo(e) <==> id == 11)
       && ImageCount(e, images) == (if id == 6 then Word(e.bytes, 20)
                                    else if id == 11 then Word(e.bytes, 44) else images)
       && MetadataSize(e, size) == (if id == 19 then Word(e.bytes, 20) else size)
       && Flags(e.bytes) == (Word(e.bytes, 20), Word(e.bytes, 24), Word(e.bytes, 32), Word(e.bytes, 36)))
  {
    hide Word, Intact;
  }

  /** The entries copied last. */
  function LastCopied(log: seq<Event>): seq<u32> {
    if log == [] then []
    else if log[|log| - 1].Copied? then log[|log| - 1].partitions
    else LastCopied(log[..|log| - 1])
  }

  /** Some image was reported, and each as booted from partition A (0) or from none (2). */
  predicate NoneFromB(partitions: seq<u32>) {
    partitions != [] && forall k | 0 <= k < |partitions| :: partitions[k] == 0 || partitions[k] == 2
  }

  /** The board may be written: a verified reply said that both tables are sound, and no image
      was reported to boot from partition B. */
  predicate Approved(log: seq<Event>) {
    LastFlags(log) == (1, 1, 1, 1) && NoneFromB(LastCopied(log))
  }

  /** A command that changes the board. */
  predicate Writes(e: Event) {
    e.Asked? && (e.command.FlashImage? || e.command.UpdateGpt?)
  }

  predicate Rebooted(log: seq<Event>) {
    exists k | 0 <= k < |log| :: log[k].Reboot?
  }

  /** The commands, in order, with their sending outcomes. */
  function Commands(log: seq<Event>): seq<Event> {
    if log == [] then [] else
    Commands(log[..|log| - 1]) + if log[|log| - 1].Asked? then [log[|log| - 1]] else []
  }

  lemma LogStep(log: seq<Event>, e: Event)
    ensures LastFlags(log + [e]) == if VerifiedBootInfo(e) then Flags(e.bytes) else LastFlags(log)
    ensures LastStatus(log + [e]) == if Carries(e) then Status(e.bytes) else LastStatus(log)
    ensures LastCopied(log + [e]) == if e.Copied? then e.partitions else LastCopied(log)
    ensures Commands(log + [e]) == Commands(log) + if e.Asked? then [e] else []
    ensures Rebooted(log + [e]) <==> Rebooted(log) || e.Reboot?
  {
    hide VerifiedBootInfo, Flags, Status;
    assert (log + [e])[..|log|] == log;
    assert (log + [e])[|log|] == e;
    if Rebooted(log) {
      var k :| 0 <= k < |log| && log[k].Reboot?;
      assert (log + [e])[k].Reboot?;
    }
  }

  lemma AskedStep(log: seq<Event>, command: Command, sent: bool)
    ensures LastFlags(log + [Asked(command, sent)]) == LastFlags(log)
    ensures LastStatus(log + [Asked(command, sent)]) == LastStatus(log)
  {
    LogStep(log, Asked(command, sent));
  }

  // ---- the script ----

  /** The commands of a complete run: four questions, each configured image to partition B of
      the primary table, the table update. */
  function Script(names: seq<string>, images: nat): (s: seq<Command>)
    ensures |s| == |names| + 5
  {
    Questions(images) + Flashing(names) + [UpdateGpt(images, PRIMARY_GPT)]
  }

  function Questions(images: nat): (s: seq<Command>)
    ensures |s| == 4
  {
    [CheckGpt, GetMetadataInfo, GetMetadata, GetBootInfo(images)]
  }

  function Flashing(names: seq<string>): (s: seq<Command>)
    ensures |s| == |names|
  {
    seq(|names|, i requires 0 <= i < |names| => FlashImage(names[i], PRIMARY_GPT, PARTITION_B, FLASH_AND_MARK))
  }

  /** The first n commands of the script were sent, and no other. */
  ghost predicate Followed(log: seq<Event>, script: seq<Command>, n: nat)
    requires n <= |script|
  {
    Commands(log) == seq(n, i requires 0 <= i < n => Asked(script[i], true))
  }

  /** The run stopped at a command that could not be sent. */
  ghost predicate Stopped(log: seq<Event>, script: seq<Command>, n: nat)
    requires n < |script|
  {
    Commands(log) == seq(n, i requires 0 <= i < n => Asked(script[i], true)) + [Asked(script[n], false)]
  }

  ghost predicate FollowsScript(log: seq<Event>, script: seq<Command>) {
    exists n: nat | n <= |script| :: Followed(log, script, n) || (n < |script| && Stopped(log, script, n))
  }

  // ---- the kinds of events, by place ----

  datatype Kind = Ask | Answer | Local | Copy

  /** What happens as number k of a run: three questions, each with its answer; the local step,
      the last question and its answer; the copy; then local step, command and answer again
      and again. */
  function KindOf(k: nat): Kind {
    if k < 6 then (if k % 2 == 0 then Ask else Answer)
    else if k == 6 then Local
    else if k == 7 then Ask
    else if k == 8 then Answer
    else if k == 9 then Copy
    else if k % 3 == 1 then Local
    else if k % 3 == 2 then Ask
    else Answer
  }

  predicate Is(e: Event, kind: Kind) {
    match kind
    case Ask => e.Asked?
    case Answer => e.Received? || e.Silence?
    case Local => e.Prepared?
    case Copy => e.Copied?
  }

  ghost predicate Shaped(log: seq<Event>) {
    forall k | 0 <= k < |log| :: Is(log[k], KindOf(k))
  }

  lemma ShapedMore(log: seq<Event>, e: Event)
    requires Shaped(log) && Is(e, KindOf(|log|))
    ensures Shaped(log + [e])
  {
    hide Is, KindOf;
  }

  /** The log ends with something the sequence does not go on from. */
  predicate Halts(log: seq<Event>) {
    log != [] && var e := log[|log| - 1];
    || e == Prepared(false)
    || (e.Asked? && !e.sent)
    || ((e.Received? || e.Silence?) && LastStatus(log) != 0)
    || (e.Copied? && !Approved(log))
  }

  ghost predicate NeverHalted(log: seq<Event>) {
    forall k: nat | k <= |log| :: !Halts(log[..k])
  }

  /** n commands of the script are sent and nothing has stood in the way. */
  ghost predicate Underway(log: seq<Event>, script: seq<Command>, n: nat)
    requires n <= |script|
  {
    Followed(log, script, n) && NeverHalted(log) && !Rebooted(log)
  }

  /** The run ended at the first thing that stood in the way. */
  ghost predicate Ended(log: seq<Event>, script: seq<Command>) {
    log != [] && Halts(log) && NeverHalted(log[..|log| - 1]) && FollowsScript(log, script) && !Rebooted(log)
  }

  lemma NeverHaltedStep(log: seq<Event>, e: Event)
    requires NeverHalted(log)
    ensures NeverHalted(log + [e]) <==> !Halts(log + [e])
    ensures NeverHalted((log + [e])[..|log + [e]| - 1])
  {
    hide Halts;
    var t := log + [e];
    assert t[..|log|] == log && t[..|t|] == t;
    forall k: nat | k <= |log|
      ensures !Halts(t[..k])
    {
      assert t[..k] == log[..k];
    }
  }

  /** The next command of the script. */
  lemma NextAsked(log: seq<Event>, script: seq<Command>, n: nat, sent: bool)
    requires n < |script| && Underway(log, script, n)
    ensures var t := log + [Asked(script[n], sent)];
      if sent then Underway(t, script, n + 1) else Ended(t, script)
  {
    hide Approved, LastStatus;
    var e := Asked(script[n], sent);
    LogStep(log, e);
    NeverHaltedStep(log, e);
    if !sent {
      StoppedThere(log + [e], script, n);
    }
  }

  lemma StoppedThere(log: seq<Event>, script: seq<Command>, n: nat)
    requires n < |script| && Stopped(log, script, n)
    ensures FollowsScript(log, script)
  {
    hide Stopped, Followed;
  }

  /** Anything between two commands. */
  lemma NextHappened(log: seq<Event>, script: seq<Command>, n: nat, e: Event)
    requires n <= |script| && Underway(log, script, n) && !e.Asked? && !e.Reboot?
    ensures var t := log + [e]; if Halts(t) then Ended(t, script) else Underway(t, script, n)
  {
    hide Halts;
    LogStep(log, e);
    NeverHaltedStep(log, e);
    assert Followed(log + [e], script, n);
  }

  /** Everything that changes the board comes after approval. */
  ghost predicate OnlyAfterApproval(log: seq<Event>) {
    Calm(log) || WritesApproved(log)
  }

  ghost predicate Calm(log: seq<Event>) {
    forall k | 0 <= k < |log| :: !Writes(log[k])
  }

  ghost predicate WritesApproved(log: seq<Event>) {
    exists v: nat {:trigger Approved(log[..v])} | v <= |log| ::
      Approved(log[..v]) && forall k | 0 <= k < v :: !Writes(log[k])
  }

  lemma ApprovalBegins(log: seq<Event>)
    requires Calm(log) && Approved(log)
    ensures WritesApproved(log)
  {
    hide Approved, Writes;
    assert log[..|log|] == log;
  }

  lemma ApprovalStays(log: seq<Event>, e: Event)
    requires WritesApproved(log)
    ensures WritesApproved(log + [e])
  {
    hide Approved, Writes;
    var v: nat :| v <= |log| && Approved(log[..v]) && forall k | 0 <= k < v :: !Writes(log[k]);
    assert (log + [e])[..v] == log[..v];
  }

  /** Approval, once given, stays. */
  lemma StillApproved(log: seq<Event>, e: Event)
    ensures WritesApproved(log) ==> WritesApproved(log + [e])
    ensures Calm(log) && !Writes(e) ==> Calm(log + [e])
  {
    hide WritesApproved;
    if WritesApproved(log) {
      ApprovalStays(log, e);
    }
  }

  // ---- the updater ----

  /** rtss_updater_hndshk, as far as the sequence uses it. */
  class Updater {
    var respStatus: u32
    var msgId: u32
    var numImagesBoot: u32
    var primHeader: u32
    var primEntry: u32
    var secHeader: u32
    var secEntry: u32
    var metadataSize: u32
    var bootPass: nat
    var bootFail: nat
    var partitions: seq<u32>

    constructor ()
      ensures Zero()
    {
      respStatus, msgId, numImagesBoot, metadataSize := 0, 0, 0, 0;
      primHeader, primEntry, secHeader, secEntry := 0, 0, 0, 0;
      bootPass, bootFail, partitions := 0, 0, [];
    }

    predicate Zero()
      reads this
    {
      && respStatus == msgId == numImagesBoot == metadataSize == 0
      && FlagFields() == (0, 0, 0, 0) && bootPass == bootFail == 0 && partitions == []
    }

    function FlagFields(): (u32, u32, u32, u32)
      reads this
    {
      (primHeader, primEntry, secHeader, secEntry)
    }

    /** The status comes from the last message, the flags from verified replies only. */
    predicate Tracks(log: seq<Event>)
      reads this
    {
      respStatus == LastStatus(log) && FlagFields() == LastFlags(log)
    }

    /** rtss_updater_cbk_notify_handler: the status is taken before the checksum is checked;
        everything else only from a reply whose checksum is right. */
    method Notify(board: Board)
      requires Tracks(board.log)
      modifies this, board
      ensures |board.log| == |old(board.log)| + 1 && board.log[..|old(board.log)|] == old(board.log)
      ensures var e := board.log[|old(board.log)|];
        && (e.Received? || e.Silence?)
        && (e.Silence? ==> respStatus == old(respStatus))
        && (e.Received? ==> |e.bytes| == MESSAGE_SIZE && respStatus == Word(e.bytes, 16) && msgId == Word(e.bytes, 8))
        && numImagesBoot == ImageCount(e, old(numImagesBoot)) && metadataSize == MetadataSize(e, old(metadataSize))
      ensures Tracks(board.log)
      ensures bootPass == old(bootPass) && bootFail == old(bootFail) && partitions == old(partitions)
    {
      hide Word, Intact, Cleared, ImageCount, MetadataSize, VerifiedBootInfo, LastFlags, Flags;
      hide LastStatus, LastCopied, Commands, Rebooted;
      var rx := new bv8[MESSAGE_SIZE](_ => 0);
      ghost var before := board.log;
      var ok := board.Receive(rx);
      ghost var e := board.log[|before|];
      LogStep(before, e);
      ReplyFields(e, numImagesBoot, metadataSize);
      if !ok {
        return;
      }
      ghost var bytes := rx[..];
      respStatus := Word(rx[..], 16);
      msgId := Word(rx[..], 8);
      ClearedFields(bytes);
      ok := Check(rx);
      if !ok {
        return;
      }
      StoreFields(rx[..]);
    }

    /** The switch over the message identifier. */
    method StoreFields(m: seq<bv8>)
      requires |m| == MESSAGE_SIZE
      modifies this`numImagesBoot, this`primHeader, this`primEntry, this`secHeader, this`secEntry, this`metadataSize
      ensures FlagFields() == if msgId == MSG_GET_BOOTINFO then Flags(m) else old(FlagFields())
      ensures numImagesBoot == if msgId == MSG_QUERY_IMAGES then Word(m, 20)
                               else if msgId == MSG_GET_BOOTINFO then Word(m, 44) else old(numImagesBoot)
      ensures metadataSize == if msgId == MSG_GET_OTA_METADATAINFO then Word(m, 20) else old(metadataSize)
    {
      hide Word;
      if msgId == MSG_QUERY_IMAGES {
        numImagesBoot := Word(m, 20);
      } else if msgId == MSG_GET_BOOTINFO {
        numImagesBoot := Word(m, 44);
        primHeader := Word(m, 20);
        primEntry := Word(m, 24);
        secHeader := Word(m, 32);
        secEntry := Word(m, 36);
      } else if msgId == MSG_GET_OTA_METADATAINFO {
        metadataSize := Word(m, 20);
      }
    }

    /** Sends the next command of the script, receives, and looks at the status that is left. */
    method Exchange(board: Board, command: Command, ghost script: seq<Command>, ghost n: nat) returns (ok: bool)
      requires Tracks(board.log) && n < |script| && command == script[n] && Underway(board.log, script, n)
      requires Shaped(board.log) && KindOf(|board.log|) == Ask && KindOf(|board.log| + 1) == Answer
      modifies this, board
      ensures Shaped(board.log)
      ensures Tracks(board.log)
      ensures bootPass == old(bootPass) && bootFail == old(bootFail) && partitions == old(partitions)
      ensures |old(board.log)| < |board.log| && board.log[..|old(board.log)|] == old(board.log)
      ensures var asked := board.log[|old(board.log)|];
        && asked.Asked? && asked.command == command
        && |board.log| == |old(board.log)| + (if asked.sent then 2 else 1)
        && (ok <==> asked.sent && LastStatus(board.log) == 0)
      ensures if ok then Underway(board.log, script, n + 1) else Ended(board.log, script)
      ensures old(Calm(board.log)) && !command.FlashImage? && !command.UpdateGpt? ==> Calm(board.log)
      ensures old(WritesApproved(board.log)) ==> WritesApproved(board.log)
    {
      hide Word, VerifiedBootInfo, Flags, LastFlags, WritesApproved, Underway, Ended, Approved, LastStatus, Status;
      hide KindOf, Shaped, LastCopied, Commands, Rebooted, ImageCount, MetadataSize, Followed;
      ghost var before := board.log;
      var sent := board.Send(command);
      ghost var asked := board.log;
      AskedStep(before, command, sent);
      NextAsked(before, script, n, sent);
      StillApproved(before, Asked(command, sent));
      ShapedMore(before, Asked(command, sent));
      if !sent {
        return false;
      }
      Notify(board);
      ghost var e := board.log[|asked|];
      assert board.log == asked + [e];
      NextHappened(asked, script, n + 1, e);
      StillApproved(asked, e);
      ShapedMore(asked, e);
      ok := respStatus == 0;
    }

    /** rtss_updater_get_bl_info_context; without images nothing is copied. */
    method GetBootInfoContext(board: Board) returns (ok: bool)
      requires Tracks(board.log)
      modifies this, board
      ensures Tracks(board.log) && bootPass == old(bootPass) && bootFail == old(bootFail)
      ensures numImagesBoot == old(numImagesBoot) && FlagFields() == old(FlagFields())
      ensures ok == (numImagesBoot != 0)
      ensures |partitions| == numImagesBoot && board.log == old(board.log) + [Copied(partitions)]
    {
      ghost var before := board.log;
      partitions := board.CopyEntries(numImagesBoot);
      LogStep(before, Copied(partitions));
      ok := numImagesBoot != 0;
    }

    /** rtss_updater_get_bl_partition_status. */
    method GetPartitionStatus() returns (ok: bool)
      requires bootPass == bootFail == 0 && |partitions| == numImagesBoot
      modifies this`bootPass, this`bootFail
      ensures ok ==> bootPass + bootFail == numImagesBoot > 0
      ensures ok ==> (bootFail == 0 <==> NoneFromB(partitions))
      ensures !ok <==> numImagesBoot == 0 || exists k | 0 <= k < |partitions| :: partitions[k] > 2
    {
      if numImagesBoot == 0 {
        return false;
      }
      var k := 0;
      while k < numImagesBoot
        invariant k <= numImagesBoot && bootPass + bootFail == k
        invariant forall j | 0 <= j < k :: partitions[j] <= 2
        invariant bootFail == 0 <==> forall j | 0 <= j < k :: partitions[j] == 0 || partitions[j] == 2
      {
        if partitions[k] == 0 {
          bootPass := bootPass + 1;
        } else if partitions[k] == 1 {
          bootFail := bootFail + 1;
        } else if partitions[k] == 2 {
          bootPass := bootPass + 1;
        } else {
          return false;
        }
        k := k + 1;
      }
      ok := true;
    }

    /** rtss_updater_validate_boot_info. */
    method ValidateBootInfo() returns (ok: bool)
      ensures ok <==> FlagFields() == (1, 1, 1, 1) && bootFail == 0 && numImagesBoot == bootPass
    {
      if primEntry == 1 && primHeader == 1 && secEntry == 1 && secHeader == 1 {
        if bootFail > 0 {
          return false;
        }
        ok := numImagesBoot == bootPass;
      } else {
        ok := false;
      }
    }

    /** A local step. */
    method Prepare(board: Board, ghost script: seq<Command>, ghost n: nat) returns (ok: bool)
      requires Tracks(board.log) && n <= |script| && Underway(board.log, script, n)
      requires Shaped(board.log) && KindOf(|board.log|) == Local
      modifies board
      ensures Shaped(board.log)
      ensures Tracks(board.log) && board.log == old(board.log) + [Prepared(ok)]
      ensures if ok then Underway(board.log, script, n) else Ended(board.log, script)
      ensures old(Calm(board.log)) ==> Calm(board.log)
      ensures old(WritesApproved(board.log)) ==> WritesApproved(board.log)
    {
      hide KindOf, Shaped, Underway, Ended, Approved, LastFlags, LastStatus, WritesApproved;
      ghost var before := board.log;
      ok := board.Prepare();
      LogStep(before, Prepared(ok));
      NextHappened(before, script, n, Prepared(ok));
      StillApproved(before, Prepared(ok));
      ShapedMore(before, Prepared(ok));
    }

    /** The four questions. */
    method AskAll(board: Board, images: nat, ghost script: seq<Command>) returns (ok: bool)
      requires Zero() && board.log == [] && Questions(images) <= script
      modifies this, board
      ensures Tracks(board.log) && Calm(board.log)
      ensures Shaped(board.log) && (ok ==> |board.log| == 9)
      ensures bootPass == bootFail == 0
      ensures if ok then Underway(board.log, script, 4) else Ended(board.log, script)
    {
      Nothing(script);
      hide Shaped, Word, LastFlags, LastStatus, Underway, Ended, WritesApproved;
      ok := Exchange(board, CheckGpt, script, 0);
      if !ok {
        return;
      }
      ok := Exchange(board, GetMetadataInfo, script, 1);
      if !ok {
        return;
      }
      ok := Exchange(board, GetMetadata, script, 2);
      if !ok {
        return;
      }
      ok := Prepare(board, script, 3);
      if !ok {
        return;
      }
      ok := Exchange(board, GetBootInfo(images), script, 3);
    }

    /** The answers are copied and judged. */
    method CopyAndValidate(board: Board, ghost script: seq<Command>) returns (ok: bool)
      requires Tracks(board.log) && Calm(board.log) && bootPass == bootFail == 0
      requires |script| >= 4 && Underway(board.log, script, 4)
      requires Shaped(board.log) && |board.log| == 9
      modifies this, board
      ensures Shaped(board.log)
      ensures Tracks(board.log) && Calm(board.log) && board.log == old(board.log) + [Copied(LastCopied(board.log))]
      ensures ok <==> Approved(board.log)
      ensures if ok then Underway(board.log, script, 4) else Ended(board.log, script)
    {
      hide Shaped, Word, LastFlags, LastStatus, Underway, Ended;
      ghost var before := board.log;
      ok := GetBootInfoContext(board);
      LogStep(before, Copied(partitions));
      NextHappened(before, script, 4, Copied(partitions));
      ShapedMore(before, Copied(partitions));
      assert Halts(board.log) <==> !Approved(board.log);
      if !ok {
        return;
      }
      ok := GetPartitionStatus();
      if !ok {
        return;
      }
      ok := ValidateBootInfo();
    }

    /** The loop over the configured images: when it is through, each was flashed once, in order. */
    method FlashAll(board: Board, names: seq<string>, ghost images: nat) returns (ok: bool)
      requires Tracks(board.log) && WritesApproved(board.log) && Underway(board.log, Script(names, images), 4)
      requires Shaped(board.log) && |board.log| == 10
      modifies this, board
      ensures Shaped(board.log) && (ok ==> |board.log| == 10 + 3 * |names|)
      ensures Tracks(board.log) && WritesApproved(board.log)
      ensures if ok then Underway(board.log, Script(names, images), 4 + |names|)
              else Ended(board.log, Script(names, images))
      ensures InOrder(Commands(board.log), names, images) && FlashNames(Commands(board.log)) <= names
      ensures ok ==> FlashNames(Commands(board.log)) == names
    {
      hide Shaped, WritesApproved, Underway, Ended, LastFlags, LastStatus, Script, InOrder, FlashNames, Commands;
      var i := 0;
      ok := true;
      while i < |names|
        invariant i <= |names| && ok && Tracks(board.log) && WritesApproved(board.log)
        invariant Shaped(board.log) && |board.log| == 10 + 3 * i
        invariant Underway(board.log, Script(names, images), 4 + i)
      {
        ok := Prepare(board, Script(names, images), 4 + i);
        if !ok {
          EndedCommands(board.log, names, images);
          return;
        }
        ScriptAt(names, images, 4 + i);
        ok := Exchange(board, FlashImage(names[i], PRIMARY_GPT, PARTITION_B, FLASH_AND_MARK),
                       Script(names, images), 4 + i);
        if !ok {
          EndedCommands(board.log, names, images);
          return;
        }
        i := i + 1;
      }
      FlashedAll(board.log, names, images);
    }

    /** rtss_updater_preboot_demosequence; it runs once, on the zeroed context. */
    method PrebootSequence(board: Board, names: seq<string>, images: nat, skipReboot: bool) returns (ok: bool)
      requires Zero() && board.log == []
      modifies this, board
      ensures OnlyAfterApproval(board.log)
      ensures if ok then Completed(board.log, Script(names, images), skipReboot)
              else Ended(board.log, Script(names, images))
      ensures ok ==> |board.log| == 13 + 3 * |names| + (if skipReboot then 0 else 1)
      ensures Shaped(if ok && !skipReboot then board.log[..|board.log| - 1] else board.log)
      ensures InOrder(Commands(board.log), names, images) && FlashNames(Commands(board.log)) <= names
      ensures ok ==> |Commands(board.log)| == |names| + 5 && FlashNames(Commands(board.log)) == names
      ensures Rebooted(board.log) <==> ok && !skipReboot
    {
      hide Shaped, Rebooted, InOrder, Script, Ended, Completed, Commands, FlashNames, OnlyAfterApproval;
      ok := Steps(board, names, images, skipReboot);
      RebootsAtTheEnd(board.log, Script(names, images), skipReboot);
      if ok {
        CompletedCommands(board.log, names, images, skipReboot);
      } else {
        EndedCommands(board.log, names, images);
      }
    }

    /** Its steps, in the terms of the script. */
    method Steps(board: Board, names: seq<string>, images: nat, skipReboot: bool) returns (ok: bool)
      requires Zero() && board.log == []
      modifies this, board
      ensures OnlyAfterApproval(board.log)
      ensures if ok then Completed(board.log, Script(names, images), skipReboot)
              else Ended(board.log, Script(names, images))
      ensures ok ==> |board.log| == 13 + 3 * |names| + (if skipReboot then 0 else 1)
      ensures Shaped(if ok && !skipReboot then board.log[..|board.log| - 1] else board.log)
    {
      hide Shaped, Approved, WritesApproved, Calm, Underway, Ended, Flashing, Questions, LastFlags, LastStatus;
      hide Commands, FlashNames, InOrder;
      ghost var script := Script(names, images);
      ScriptParts(names, images);
      ok := AskAll(board, images, script);
      if !ok {
        return;
      }
      ok := CopyAndValidate(board, script);
      if !ok {
        return;
      }
      ApprovalBegins(board.log);
      ok := FlashAll(board, names, images);
      if !ok {
        return;
      }
      ok := Prepare(board, script, 4 + |names|);
      if !ok {
        return;
      }
      ok := Exchange(board, UpdateGpt(images, PRIMARY_GPT), script, 4 + |names|);
      if !ok {
        return;
      }
      if !skipReboot {
        ghost var before := board.log;
        ApprovalStays(before, Reboot);
        board.RequestReboot();
        assert board.log[..|board.log| - 1] == before;
      }
    }
  }

  lemma ScriptParts(names: seq<string>, images: nat)
    ensures var s := Script(names, images);
      && Questions(images) <= s && s[4..4 + |names|] == Flashing(names)
      && s[4 + |names|] == UpdateGpt(images, PRIMARY_GPT)
  {
    hide Questions, Flashing;
  }

  lemma Nothing(script: seq<Command>)
    ensures Shaped([]) && Underway([], script, 0) && LastStatus([]) == 0 && LastFlags([]) == (0, 0, 0, 0)
  {
  }

  /** The whole script, and the reboot unless it is to be skipped. */
  ghost predicate Completed(log: seq<Event>, script: seq<Command>, skipReboot: bool) {
    if skipReboot then Underway(log, script, |script|)
    else log != [] && log[|log| - 1].Reboot? && Underway(log[..|log| - 1], script, |script|)
  }

  // ---- the commands, one by one ----

  /** The images that the flash commands among cs name, in order. */
  function FlashNames(cs: seq<Event>): seq<string> {
    if cs == [] then [] else
    var e := cs[|cs| - 1];
    FlashNames(cs[..|cs| - 1]) + if e.Asked? && e.command.FlashImage? then [e.command.name] else []
  }

  /** What each command of a run is: of a whole run, of a run that ended early, of one under way.
      Only the last may have failed to be sent. */
  ghost predicate InOrder(cs: seq<Event>, names: seq<string>, images: nat) {
    && |cs| <= |names| + 5
    && (forall k | 0 <= k < |cs| :: cs[k].Asked? && (k < |cs| - 1 ==> cs[k].sent))
    && (0 < |cs| ==> cs[0].command == CheckGpt)
    && (1 < |cs| ==> cs[1].command == GetMetadataInfo)
    && (2 < |cs| ==> cs[2].command == GetMetadata)
    && (3 < |cs| ==> cs[3].command == GetBootInfo(images))
    && (forall k | 4 <= k < |cs| && k < |names| + 4 :: cs[k].command == FlashImage(names[k - 4], 0, 1, 2))
    && (|cs| == |names| + 5 ==> cs[|names| + 4].command == UpdateGpt(images, 0))
  }

  lemma ScriptAt(names: seq<string>, images: nat, k: nat)
    requires k < |names| + 5
    ensures Script(names, images)[k] ==
      if k == 0 then CheckGpt else if k == 1 then GetMetadataInfo else if k == 2 then GetMetadata
      else if k == 3 then GetBootInfo(images)
      else if k < |names| + 4 then FlashImage(names[k - 4], 0, 1, 2) else UpdateGpt(images, 0)
  {
  }

  lemma FollowedInOrder(log: seq<Event>, names: seq<string>, images: nat, n: nat)
    requires n <= |names| + 5 && Followed(log, Script(names, images), n)
    ensures InOrder(Commands(log), names, images) && |Commands(log)| == n
    ensures forall k | 0 <= k < n :: Commands(log)[k].sent
  {
    hide Script, Commands;
    forall k: nat | k < n { ScriptAt(names, images, k); }
  }

  lemma StoppedInOrder(log: seq<Event>, names: seq<string>, images: nat, n: nat)
    requires n < |names| + 5 && Stopped(log, Script(names, images), n)
    ensures InOrder(Commands(log), names, images)
  {
    hide Script, Commands;
    forall k: nat | k <= n { ScriptAt(names, images, k); }
  }

  /** The flash commands name the configured images in order, as far as the run got. */
  lemma {:induction false} FlashesAreAPrefix(cs: seq<Event>, names: seq<string>, images: nat)
    requires InOrder(cs, names, images)
    ensures FlashNames(cs) == names[..if |cs| <= 4 then 0 else if |cs| - 4 <= |names| then |cs| - 4 else |names|]
  {
    if cs != [] {
      FlashesAreAPrefix(cs[..|cs| - 1], names, images);
    }
  }

  lemma FlashedAll(log: seq<Event>, names: seq<string>, images: nat)
    requires Underway(log, Script(names, images), 4 + |names|)
    ensures InOrder(Commands(log), names, images) && FlashNames(Commands(log)) == names
  {
    hide NeverHalted, InOrder, Followed, Script;
    FollowedInOrder(log, names, images, 4 + |names|);
    FlashesAreAPrefix(Commands(log), names, images);
  }

  /** A run that ended: every command in its place, and the flashed images a prefix of those
      configured. */
  lemma EndedCommands(log: seq<Event>, names: seq<string>, images: nat)
    requires Ended(log, Script(names, images))
    ensures InOrder(Commands(log), names, images) && FlashNames(Commands(log)) <= names
  {
    hide Halts, Commands, InOrder, Followed, Stopped, Script;
    var script := Script(names, images);
    var n: nat :| n <= |script| && (Followed(log, script, n) || (n < |script| && Stopped(log, script, n)));
    if Followed(log, script, n) {
      FollowedInOrder(log, names, images, n);
    } else {
      StoppedInOrder(log, names, images, n);
    }
    FlashesAreAPrefix(Commands(log), names, images);
  }

  /** A run that completed: every command sent, each configured image flashed once, to
      partition 1 with flash type 2 through table 0, and then the one table update. */
  lemma CompletedCommands(log: seq<Event>, names: seq<string>, images: nat, skipReboot: bool)
    requires Completed(log, Script(names, images), skipReboot)
    ensures var cs := Commands(log);
      && |cs| == |names| + 5 && InOrder(cs, names, images) && FlashNames(cs) == names
      && (forall k | 0 <= k < |cs| :: cs[k].Asked? && cs[k].sent)
      && (forall k | 0 <= k < |names| :: cs[4 + k].command == FlashImage(names[k], 0, 1, 2))
      && (forall k | 0 <= k < |cs| :: cs[k].command.UpdateGpt? <==> k == |names| + 4)
      && cs[|names| + 4].command == UpdateGpt(images, 0)
  {
    hide NeverHalted, Script, Followed, Commands;
    var script := Script(names, images);
    var run := if skipReboot then log else log[..|log| - 1];
    if !skipReboot {
      assert log == run + [Reboot];
      LogStep(run, Reboot);
    }
    assert Commands(log) == Commands(run);
    FollowedInOrder(run, names, images, |names| + 5);
    FlashesAreAPrefix(Commands(log), names, images);
  }

  lemma RebootsAtTheEnd(log: seq<Event>, script: seq<Command>, skipReboot: bool)
    ensures Completed(log, script, skipReboot) ==> (Rebooted(log) <==> !skipReboot)
    ensures Ended(log, script) ==> !Rebooted(log)
  {
    hide NeverHalted, FollowsScript, Followed, Halts;
  }

  /** Each command that changes the board comes after a boot information reply with the right
      checksum and all four flags 1, and after a copy of at least one image, each booted from
      partition A (0) or from none (2). */
  lemma WritesAreEarned(log: seq<Event>, k: nat)
    requires OnlyAfterApproval(log) && k < |log| && Writes(log[k])
    ensures exists i | 0 <= i < k :: log[i].Received? && var m := log[i].bytes;
      && |m| == MESSAGE_SIZE && Intact(m) && Word(m, 8) == 11
      && Word(m, 20) == Word(m, 24) == Word(m, 32) == Word(m, 36) == 1
    ensures exists j | 0 <= j < k :: log[j].Copied? && var ps := log[j].partitions;
      && |ps| > 0 && forall p | p in ps :: p == 0 || p == 2
  {
    hide Word, Intact, VerifiedBootInfo, Flags, NoneFromB, LastFlags, LastCopied;
    assert !Calm(log);
    var v: nat :| v <= |log| && Approved(log[..v]) && forall i | 0 <= i < v :: !Writes(log[i]);
    EarnedCopy(LastCopied(log[..v]));
    var i := FlagsFrom(log[..v]);
    var j := CopiedFrom(log[..v]);
    assert log[..v][i] == log[i] && log[..v][j] == log[j];
    assert v <= k;
    EarnedFlags(log[i]);
  }

  lemma EarnedFlags(e: Event)
    requires VerifiedBootInfo(e) && Flags(e.bytes) == (1, 1, 1, 1)
    ensures e.Received? && |e.bytes| == MESSAGE_SIZE && Intact(e.bytes) && Word(e.bytes, 8) == 11
    ensures Word(e.bytes, 20) == Word(e.bytes, 24) == Word(e.bytes, 32) == Word(e.bytes, 36) == 1
  {
    hide Word, Intact;
  }

  lemma EarnedCopy(partitions: seq<u32>)
    requires NoneFromB(partitions)
    ensures |partitions| > 0 && forall p | p in partitions :: p == 0 || p == 2
  {
  }

  lemma {:induction false} FlagsFrom(log: seq<Event>) returns (i: nat)
    requires LastFlags(log) != (0, 0, 0, 0)
    ensures i < |log| && VerifiedBootInfo(log[i]) && Flags(log[i].bytes) == LastFlags(log)
  {
    hide VerifiedBootInfo, Flags;
    i := |log| - 1;
    if !VerifiedBootInfo(log[i]) {
      i := FlagsFrom(log[..|log| - 1]);
    }
  }

  lemma {:induction false} CopiedFrom(log: seq<Event>) returns (j: nat)
    requires LastCopied(log) != []
    ensures j < |log| && log[j].Copied? && log[j].partitions == LastCopied(log)
  {
    j := |log| - 1;
    if !log[j].Copied? {
      j := CopiedFrom(log[..|log| - 1]);
    }
  }

  /** Zeroing the checksum field moves no other field. */
  lemma ClearedFields(m: seq<bv8>)
    requires |m| == MESSAGE_SIZE
    ensures Word(Cleared(m), 20) == Word(m, 20) && Word(Cleared(m), 24) == Word(m, 24)
    ensures Word(Cleared(m), 32) == Word(m, 32) && Word(Cleared(m), 36) == Word(m, 36)
    ensures Word(Cleared(m), 44) == Word(m, 44)
    ensures Flags(Cleared(m)) == Flags(m)
  {
    hide Word;
    SameWord(Cleared(m), m, 20);
    SameWord(Cleared(m), m, 24);
    SameWord(Cleared(m), m, 32);
    SameWord(Cleared(m), m, 36);
    SameWord(Cleared(m), m, 44);
  }

  // ---- when a step passes ----

  /** After a sent command, going on depends on the status field alone: without a message on
      that of an earlier one, or none; with a message on its own, be its checksum right or not. */
  lemma StepPasses(log: seq<Event>, command: Command, e: Event)
    requires e.Silence? || Carries(e)
    ensures var t := log + [Asked(command, true)] + [e];
      !Halts(t) <==> (if e.Silence? then LastStatus(log) == 0 else Status(e.bytes) == 0)
  {
    hide Status, Approved;
    LogStep(log, Asked(command, true));
    LogStep(log + [Asked(command, true)], e);
  }

  /** A step passes without a fresh and sound answer if and only if nothing came and the status
      left over is 0, or a message with a wrong checksum came and its status field is 0. */
  lemma PassesUnanswered(log: seq<Event>, command: Command, e: Event)
    requires e.Silence? || Carries(e)
    ensures var t := log + [Asked(command, true)] + [e];
      !Halts(t) && !(Carries(e) && Intact(e.bytes)) <==>
        (e.Silence? && LastStatus(log) == 0) || (Carries(e) && !Intact(e.bytes) && Status(e.bytes) == 0)
  {
    hide Status, Intact, Halts;
    StepPasses(log, command, e);
  }

  lemma {:induction false} NeverHaltedStatus(log: seq<Event>)
    requires NeverHalted(log)
    ensures LastStatus(log) == 0
  {
    hide Approved, Status;
    if log != [] {
      var front := log[..|log| - 1];
      assert log[..|log|] == log;
      if !Carries(log[|log| - 1]) {
        forall k: nat | k <= |front|
          ensures !Halts(front[..k])
        {
          assert front[..k] == log[..k];
        }
        NeverHaltedStatus(front);
      }
    }
  }

  /** While a run is under way the status left over is always 0: in PassesUnanswered the first
      alternative needs no more than that nothing came. */
  lemma UnderwayStatus(log: seq<Event>, script: seq<Command>, n: nat)
    requires n <= |script| && Underway(log, script, n)
    ensures LastStatus(log) == 0
  {
    hide Halts, LastStatus;
    NeverHaltedStatus(log);
  }

  function Zeros(n: nat): (s: seq<bv8>)
    ensures |s| == n
  {
    seq(n, _ => 0)
  }

  /** A boot information reply: status 0, all four flags 1, one image. */
  function GoodBootInfo(): (m: seq<bv8>)
    ensures |m| == MESSAGE_SIZE
  {
    Zeros(8) + [11, 0, 0, 0] + Zeros(8) + [1, 0, 0, 0, 1, 0, 0, 0] + Zeros(4) + [1, 0, 0, 0, 1, 0, 0, 0]
      + Zeros(4) + [1, 0, 0, 0] + Zeros(24)
  }

  lemma SmallWord(m: seq<bv8>, at: nat, b: bv8)
    requires at + 4 <= |m| && m[at] == b && m[at + 1] == m[at + 2] == m[at + 3] == 0
    ensures Word(m, at) == b as int
  {
  }

  lemma SealedWord(m: seq<bv8>, at: nat)
    requires |m| == MESSAGE_SIZE && 4 <= at && at + 4 <= |m|
    ensures Word(Sealed(m), at) == Word(m, at)
  {
    hide Sealed, Word;
    SealedIsIntact(m);
    var s := Sealed(m);
    forall i | 4 <= i < MESSAGE_SIZE
      ensures s[i] == m[i]
    {
      assert s[i] == s[4..][i - 4] && m[i] == m[4..][i - 4];
    }
    SameWord(s, m, at);
  }

  lemma GoodBootInfoFields()
    ensures var m := Sealed(GoodBootInfo());
      && Intact(m) && MessageId(m) == 11 && Status(m) == 0 && Flags(m) == (1, 1, 1, 1)
      && ImageCount(Received(m), 0) == 1
  {
    hide Sealed, Intact, Word;
    var g := GoodBootInfo();
    SealedIsIntact(g);
    SmallWord(g, 8, 11);
    SmallWord(g, 16, 0);
    SmallWord(g, 20, 1);
    SmallWord(g, 24, 1);
    SmallWord(g, 32, 1);
    SmallWord(g, 36, 1);
    SmallWord(g, 44, 1);
    SealedWord(g, 8);
    SealedWord(g, 16);
    SealedWord(g, 20);
    SealedWord(g, 24);
    SealedWord(g, 32);
    SealedWord(g, 36);
    SealedWord(g, 44);
  }

  /** Silence after the first three commands, one message after the fourth. */
  function MuteQuestions(): seq<Event> {
    [Asked(CheckGpt, true), Silence, Asked(GetMetadataInfo, true), Silence, Asked(GetMetadata, true), Silence,
     Prepared(true), Asked(GetBootInfo(1), true), Received(Sealed(GoodBootInfo())), Copied([0])]
  }

  /** Silence for the flash and for the table update. */
  function MuteRun(name: string): seq<Event> {
    MuteQuestions() + [Prepared(true), Asked(FlashImage(name, PRIMARY_GPT, PARTITION_B, FLASH_AND_MARK), true), Silence,
                       Prepared(true), Asked(UpdateGpt(1, PRIMARY_GPT), true), Silence]
  }

  /** Silence after a sent command never stops a run. */
  lemma SilentStep(log: seq<Event>, script: seq<Command>, n: nat)
    requires n < |script| && Underway(log, script, n)
    ensures Underway(log + [Asked(script[n], true), Silence], script, n + 1)
  {
    hide Approved, Underway, Ended, LastStatus, LastFlags, LastCopied, Commands, Rebooted;
    UnderwayStatus(log, script, n);
    var asked := log + [Asked(script[n], true)];
    LogStep(log, Asked(script[n], true));
    NextAsked(log, script, n, true);
    LogStep(asked, Silence);
    NextHappened(asked, script, n + 1, Silence);
    assert asked + [Silence] == log + [Asked(script[n], true), Silence];
  }

  lemma PreparedStep(log: seq<Event>, script: seq<Command>, n: nat)
    requires n <= |script| && Underway(log, script, n)
    ensures Underway(log + [Prepared(true)], script, n)
  {
    hide Approved, Underway, Ended, LastStatus, LastFlags, LastCopied, Commands, Rebooted;
    LogStep(log, Prepared(true));
    NextHappened(log, script, n, Prepared(true));
  }

  /** A good answer to a sent question, and its copy. */
  lemma AnsweredAndCopied(log: seq<Event>, script: seq<Command>)
    requires 4 <= |script| && Underway(log, script, 3)
    ensures var m := Sealed(GoodBootInfo());
      var t := log + [Asked(script[3], true), Received(m), Copied([0])];
      Underway(t, script, 4) && Approved(t)
  {
    hide Underway, Ended, Sealed, Intact, Word, GoodBootInfo;
    var m := Sealed(GoodBootInfo());
    GoodBootInfoFields();
    var asked := log + [Asked(script[3], true)];
    NextAsked(log, script, 3, true);
    LogStep(asked, Received(m));
    NextHappened(asked, script, 4, Received(m));
    var answered := asked + [Received(m)];
    LogStep(answered, Copied([0]));
    NextHappened(answered, script, 4, Copied([0]));
    assert answered + [Copied([0])] == log + [Asked(script[3], true), Received(m), Copied([0])];
  }

  lemma MuteQuestionsPass(script: seq<Command>)
    requires Questions(1) <= script
    ensures Underway(MuteQuestions(), script, 4) && Approved(MuteQuestions())
  {
    hide Underway, Approved, Sealed, LastStatus;
    var m := Sealed(GoodBootInfo());
    Nothing(script);
    SilentStep([], script, 0);
    var one := [] + [Asked(script[0], true), Silence];
    SilentStep(one, script, 1);
    var two := one + [Asked(script[1], true), Silence];
    SilentStep(two, script, 2);
    var three := two + [Asked(script[2], true), Silence];
    PreparedStep(three, script, 3);
    AnsweredAndCopied(three + [Prepared(true)], script);
    assert MuteQuestions() == three + [Prepared(true)] + [Asked(script[3], true), Received(m), Copied([0])];
  }

  /** The whole update of one image completes on a single received message: its flash and the
      table update pass on Silence. */
  lemma MuteRunCompletes(name: string)
    ensures Completed(MuteRun(name), Script([name], 1), true)
    ensures OnlyAfterApproval(MuteRun(name))
  {
    hide Underway, Approved, Sealed, LastStatus, Questions;
    var script := Script([name], 1);
    var start := MuteQuestions();
    ScriptParts([name], 1);
    assert script[4] == Flashing([name])[0];
    MuteQuestionsPass(script);
    PreparedStep(start, script, 4);
    SilentStep(start + [Prepared(true)], script, 4);
    var flashed := start + [Prepared(true)] + [Asked(script[4], true), Silence];
    PreparedStep(flashed, script, 5);
    SilentStep(flashed + [Prepared(true)], script, 5);
    assert MuteRun(name) == flashed + [Prepared(true)] + [Asked(script[5], true), Silence];
    assert MuteRun(name)[..|start|] == start;
  }
}

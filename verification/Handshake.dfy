/** The HELLO handshake: three clean pings in a row, or eleven failures, whatever the peer
    does. */
module Handshake {
  import opened CrcWords
  import opened Crc
  import opened CrcCode
  import opened Message

  const RETRY_COUNT: nat := 3
  const ERROR_COUNT: nat := 10

  const STATE_DEINIT: nat := 0
  const STATE_INIT: nat := 1
  const STATE_READY: nat := 2

  datatype Mode = NoMode | Polling | Events | MaxMode

  /** What passes between the library and the channels. */
  datatype Event =
    | Sent(msg: seq<bv8>)
    | NotSent(msg: seq<bv8>)
    | Reply(bytes: seq<bv8>)
    | NoReply
    | ResetTx
    | ResetRx

  /** Both channels with a peer that does as it likes; log is the traffic so far. */
  class Link {
    var log: seq<Event>

    constructor ()
      ensures log == []
    {
      log := [];
    }

    /** rtss_upd_send_msg. */
    method Send(msg: seq<bv8>) returns (ok: bool)
      modifies this
      ensures log == old(log) + [if ok then Sent(msg) else NotSent(msg)]
    {
      ok := *;
      log := log + [if ok then Sent(msg) else NotSent(msg)];
    }

    /** rtss_mb_read_timed of one whole message: anything or nothing, short counts included. */
    method Read(buf: array<bv8>) returns (ok: bool)
      requires buf.Length == MESSAGE_SIZE
      modifies this, buf
      ensures log == old(log) + [if ok then Reply(buf[..]) else NoReply]
    {
      ok := *;
      forall k | 0 <= k < MESSAGE_SIZE {
        buf[k] := *;
      }
      log := log + [if ok then Reply(buf[..]) else NoReply];
    }

    /** rtss_mb_chan_reset of both channels, or of the receiving one. */
    method Reset(both: bool)
      modifies this
      ensures log == old(log) + if both then [ResetTx, ResetRx] else [ResetRx]
    {
      log := log + if both then [ResetTx, ResetRx] else [ResetRx];
    }
  }

  // ---- messages ----

  function Zeros(n: nat): (s: seq<bv8>)
    ensures |s| == n
  {
    seq(n, _ => 0)
  }

  /** The HELLO message with its checksum zero: size 72, id 0, direction 0, status 0, "HELLO",
      version 1.0. */
  function Hello(): (m: seq<bv8>)
    ensures |m| == MESSAGE_SIZE
  {
    Zeros(4) + [0x48, 0, 0, 0] + Zeros(12) + [0x48, 0x45, 0x4C, 0x4C, 0x4F] + Zeros(27) + [1, 0, 0, 0] + Zeros(16)
  }

  const DIRECTION: nat := 12

  /** The ping on the wire behind its checksum: words 72, 0, 0 and 0, the text HELLO padded
      with zeros to 32 bytes, version 1.0, and the rest zero. */
  lemma PingBytes(k: nat)
    requires 4 <= k < 72
    ensures Ping()[4..20] == [72, 0, 0, 0, 0, 0, 0, 0, 0, 0, 0, 0, 0, 0, 0, 0]
    ensures forall i | 0 <= i < 5 :: Ping()[20 + i] as int == "HELLO"[i] as int
    ensures Ping()[52..56] == [1, 0, 0, 0]
    ensures 25 <= k < 52 || 56 <= k ==> Ping()[k] == 0
  {
    hide EthernetCrc, Sealed, Hello;
    SealedIsIntact(Hello());
    forall i | 4 <= i < 72
      ensures Ping()[i] == Hello()[i]
    {
      assert Ping()[4..][i - 4] == Hello()[4..][i - 4];
    }
    HelloBytes(k);
    assert Ping()[4..20] == Hello()[4..20] && Ping()[52..56] == Hello()[52..56];
  }

  lemma HelloBytes(k: nat)
    requires 4 <= k < 72
    ensures Hello()[4..20] == [72, 0, 0, 0, 0, 0, 0, 0, 0, 0, 0, 0, 0, 0, 0, 0]
    ensures forall i | 0 <= i < 5 :: Hello()[20 + i] as int == "HELLO"[i] as int
    ensures Hello()[52..56] == [1, 0, 0, 0]
    ensures 25 <= k < 52 || 56 <= k ==> Hello()[k] == 0
  {
  }

  /** The answer on the wire: the ping's bytes, except that the byte at 12 is 1; the checksum
      may be anything. */
  lemma AnswerBytes(reply: seq<bv8>)
    requires |reply| == MESSAGE_SIZE
    ensures IsAnswer(reply) <==> forall k | 4 <= k < 72 :: reply[k] == if k == 12 then 1 else Ping()[k]
  {
    hide EthernetCrc, Sealed, Hello;
    SealedIsIntact(Hello());
    HelloBytes(13);
    var want := Stored(Hello(), DIRECTION, 1);
    OneByte();
    forall i | 4 <= i < 72
      ensures Ping()[i] == Hello()[i]
    {
      assert Ping()[4..][i - 4] == Hello()[4..][i - 4];
    }
    assert Hello()[4..20][9] == Hello()[13] && Hello()[4..20][10] == Hello()[14] && Hello()[4..20][11] == Hello()[15];
    HelloCleared();
    if forall k | 4 <= k < 72 :: reply[k] == if k == 12 then 1 else Ping()[k] {
      assert Cleared(reply) == want;
    }
    if IsAnswer(reply) {
      forall k | 4 <= k < 72
        ensures reply[k] == if k == 12 then 1 else Ping()[k]
      {
        assert Cleared(reply)[k] == reply[k];
      }
    }
  }

  lemma OneByte()
    ensures Byte0(1) == 1 && Byte1(1) == 0 && Byte2(1) == 0 && Byte3(1) == 0
    ensures Byte0(0) == 0 && Byte1(0) == 0 && Byte2(0) == 0 && Byte3(0) == 0
  {
  }

  function Ping(): (m: seq<bv8>)
    ensures |m| == MESSAGE_SIZE
  {
    Sealed(Hello())
  }

  /** The answer expected: the ping with the direction reversed; its checksum is not looked at. */
  predicate IsAnswer(reply: seq<bv8>) {
    |reply| == MESSAGE_SIZE && Cleared(reply) == Stored(Hello(), DIRECTION, 1)
  }

  /** A packed message: rtss_upd_ping_tx_msg_pack. */
  method Pack(msg: array<bv8>) returns (ok: bool)
    requires msg.Length == MESSAGE_SIZE
    modifies msg
    ensures ok && msg[..] == Ping()
  {
    hide Sealed;
    var hello := Hello();
    forall k | 0 <= k < MESSAGE_SIZE {
      msg[k] := hello[k];
    }
    assert msg[..] == hello;
    ok := Seal(msg);
  }

  lemma PingUnsealed()
    ensures Stored(Stored(Ping(), 0, 0), DIRECTION, 1) == Stored(Hello(), DIRECTION, 1)
  {
    hide EthernetCrc, Byte0, Byte1, Byte2, Byte3;
    LoadStored(Hello(), 0, EthernetCrc(Cleared(Hello())));
    HelloCleared();
  }

  lemma HelloCleared()
    ensures Cleared(Hello()) == Hello()
  {
    assert Byte0(0) == 0 && Byte1(0) == 0 && Byte2(0) == 0 && Byte3(0) == 0;
    assert Hello()[..4] == Zeros(4);
  }

  // ---- properties of the traffic ----

  predicate KnownMode(mode: Mode) {
    mode.Polling? || mode.Events?
  }

  /** A reply that the verification accepts. */
  predicate Right(e: Event, mode: Mode) {
    e.Reply? && IsAnswer(e.bytes) && KnownMode(mode)
  }

  predicate Failure(e: Event, mode: Mode) {
    e.NotSent? || e.NoReply? || (e.Reply? && !Right(e, mode))
  }

  predicate Attempt(e: Event) {
    e.Sent? || e.NotSent?
  }

  function Attempts(log: seq<Event>): nat {
    if log == [] then 0 else Attempts(log[..|log| - 1]) + if Attempt(log[|log| - 1]) then 1 else 0
  }

  function Failures(log: seq<Event>, mode: Mode): nat {
    if log == [] then 0 else Failures(log[..|log| - 1], mode) + if Failure(log[|log| - 1], mode) then 1 else 0
  }

  predicate Matched(log: seq<Event>, mode: Mode) {
    exists k | 0 <= k < |log| :: Right(log[k], mode)
  }

  /** Every message sent is the sealed ping; a failure to send is followed at once by resets of
      both channels, a missing reply by a reset of the receiving one, and nothing else is reset:
      a wrong reply in particular resets nothing. */
  ghost predicate Orderly(log: seq<Event>) {
    && (forall k | 0 <= k < |log| && Attempt(log[k]) :: log[k].msg == Ping())
    && (forall k | 0 <= k < |log| && log[k].NotSent? :: k + 2 < |log| && log[k + 1].ResetTx? && log[k + 2].ResetRx?)
    && (forall k | 0 <= k < |log| && log[k].NoReply? :: k + 1 < |log| && log[k + 1].ResetRx?)
    && (forall k | 0 <= k < |log| && log[k].ResetTx? :: k > 0 && log[k - 1].NotSent?)
    && (forall k | 0 <= k < |log| && log[k].ResetRx? :: k > 0 && (log[k - 1].NoReply? || log[k - 1].ResetTx?))
  }

  /** What may come next: an answer or silence after a ping, the resets after a failure, another
      ping after resets or a right reply, and after a wrong one no ping but the next reply. */
  predicate Follows(a: Event, b: Event, mode: Mode) {
    match a
    case Sent(_) => b.Reply? || b.NoReply?
    case NotSent(_) => b.ResetTx?
    case NoReply => b.ResetRx?
    case ResetTx => b.ResetRx?
    case ResetRx => Attempt(b)
    case Reply(_) => if Right(a, mode) then Attempt(b) else b.Reply? || b.NoReply?
  }

  ghost predicate Chained(log: seq<Event>, mode: Mode) {
    && (log != [] ==> Attempt(log[0]))
    && forall k | 0 < k < |log| :: Follows(log[k - 1], log[k], mode)
  }

  /** An answer is awaited, or a ping is due. */
  predicate Awaits(log: seq<Event>, mode: Mode, open: bool) {
    if log == [] then !open else
    var e := log[|log| - 1];
    if open then e.Sent? || (e.Reply? && !Right(e, mode)) else e.ResetRx? || Right(e, mode)
  }

  lemma ChainMore(log: seq<Event>, e: Event, mode: Mode)
    requires Chained(log, mode) && (if log == [] then Attempt(e) else Follows(log[|log| - 1], e, mode))
    ensures Chained(log + [e], mode)
  {
    hide Follows, Attempt;
  }

  /** The four ways to go on. */
  lemma ChainPing(log: seq<Event>, mode: Mode)
    requires Chained(log, mode) && Awaits(log, mode, false)
    ensures Chained(log + [Sent(Ping())], mode) && Awaits(log + [Sent(Ping())], mode, true)
    ensures var t := log + [NotSent(Ping())] + [ResetTx, ResetRx];
      Chained(t, mode) && Awaits(t, mode, false)
  {
    hide Ping, IsAnswer, Chained;
    ChainMore(log, Sent(Ping()), mode);
    var t := log + [NotSent(Ping())];
    ChainMore(log, NotSent(Ping()), mode);
    ChainMore(t, ResetTx, mode);
    ChainMore(t + [ResetTx], ResetRx, mode);
    assert t + [ResetTx] + [ResetRx] == t + [ResetTx, ResetRx];
  }

  lemma ChainAnswer(log: seq<Event>, e: Event, mode: Mode)
    requires Chained(log, mode) && Awaits(log, mode, true)
    ensures e.Reply? ==> Chained(log + [e], mode) && Awaits(log + [e], mode, !Right(e, mode))
    ensures var t := log + [NoReply] + [ResetRx];
      Chained(t, mode) && Awaits(t, mode, false)
  {
    hide IsAnswer, Chained;
    if e.Reply? {
      ChainMore(log, e, mode);
    }
    ChainMore(log, NoReply, mode);
    ChainMore(log + [NoReply], ResetRx, mode);
  }

  /** The log ends with n pings that were sent, answered and matched, and nothing else. */
  ghost predicate CleanEnd(log: seq<Event>, mode: Mode, n: nat) {
    && 2 * n <= |log|
    && forall k | 0 <= k < n ::
         log[|log| - 2 * n + 2 * k].Sent? && Right(log[|log| - 2 * n + 2 * k + 1], mode)
  }

  lemma CleanMore(log: seq<Event>, mode: Mode, n: nat, msg: seq<bv8>, e: Event)
    requires CleanEnd(log, mode, n) && Right(e, mode)
    ensures CleanEnd(log + [Sent(msg), e], mode, n + 1)
  {
    hide Right;
    var next := log + [Sent(msg), e];
    forall k | 0 <= k < n + 1
      ensures next[|next| - 2 * (n + 1) + 2 * k].Sent? && Right(next[|next| - 2 * (n + 1) + 2 * k + 1], mode)
    {
      if k < n {
        assert log[|log| - 2 * n + 2 * k].Sent? && Right(log[|log| - 2 * n + 2 * k + 1], mode);
      }
    }
  }

  lemma CountStep(log: seq<Event>, e: Event, mode: Mode)
    ensures Attempts(log + [e]) == Attempts(log) + (if Attempt(e) then 1 else 0)
    ensures Failures(log + [e], mode) == Failures(log, mode) + (if Failure(e, mode) then 1 else 0)
  {
    hide Failure, Attempt;
    assert (log + [e])[..|log|] == log;
  }

  /** Resets are neither attempts nor failures. */
  lemma CountResets(log: seq<Event>, both: bool, mode: Mode)
    ensures var t := log + if both then [ResetTx, ResetRx] else [ResetRx];
      Attempts(t) == Attempts(log) && Failures(t, mode) == Failures(log, mode)
  {
    if both {
      CountStep(log, ResetTx, mode);
      CountStep(log + [ResetTx], ResetRx, mode);
      assert log + [ResetTx] + [ResetRx] == log + [ResetTx, ResetRx];
    } else {
      CountStep(log, ResetRx, mode);
    }
  }

  lemma MatchedStep(log: seq<Event>, more: seq<Event>, mode: Mode)
    ensures Matched(log + more, mode) <==> Matched(log, mode) || Matched(more, mode)
  {
    hide Right;
    var t := log + more;
    if Matched(log, mode) {
      var k :| 0 <= k < |log| && Right(log[k], mode);
      assert Right(t[k], mode);
    }
    if Matched(more, mode) {
      var k :| 0 <= k < |more| && Right(more[k], mode);
      assert Right(t[|log| + k], mode);
    }
    if Matched(t, mode) {
      var k :| 0 <= k < |t| && Right(t[k], mode);
      if k < |log| {
        assert Right(log[k], mode);
      } else {
        assert Right(more[k - |log|], mode);
      }
    }
  }

  lemma OrderlyAppend(log: seq<Event>, more: seq<Event>)
    requires Orderly(log) && Orderly(more)
    ensures Orderly(log + more)
  {
    hide Ping;
  }

  /** The traffic of one handshake: at most 33 pings; success after three clean pings in a row,
      failure after eleven failures. */
  ghost predicate Traffic(log: seq<Event>, mode: Mode, ok: bool) {
    && Orderly(log) && Chained(log, mode) && Attempts(log) <= 33
    && (if ok then CleanEnd(log, mode, 3) && Failures(log, mode) <= 10 else Failures(log, mode) == 11)
  }

  /** What holds of the traffic since the call began, with err failures and retry pings since
      the last one. open: a ping is out and its answer is awaited. */
  ghost predicate Progress(log: seq<Event>, mode: Mode, err: nat, retry: nat, open: bool) {
    && Orderly(log) && Chained(log, mode) && Awaits(log, mode, open)
    && Failures(log, mode) == err <= ERROR_COUNT + 1
    && Attempts(log) <= 3 * err + retry && retry <= RETRY_COUNT
    && (if open && retry > 0 then
          |log| > 0 && log[|log| - 1].Sent? && CleanEnd(log[..|log| - 1], mode, retry - 1)
        else
          CleanEnd(log, mode, retry))
  }

  lemma Began(mode: Mode)
    ensures Progress([], mode, 0, 0, false) && !Matched([], mode)
  {
    hide Ping, Failure, Right;
  }

  /** One send or reply, and a failure with its resets, are orderly. */
  lemma OrderlyChunks(e: Event)
    ensures Orderly([Sent(Ping())]) && Orderly([NotSent(Ping())] + [ResetTx, ResetRx]) && Orderly([NoReply] + [ResetRx])
    ensures e.Reply? ==> Orderly([e])
  {
    hide Ping;
  }

  lemma SendStep(log: seq<Event>, mode: Mode, err: nat, retry: nat)
    requires Progress(log, mode, err, retry, false) && retry < RETRY_COUNT
    ensures Progress(log + [Sent(Ping())], mode, err, retry + 1, true)
    ensures Matched(log + [Sent(Ping())], mode) == Matched(log, mode)
  {
    hide Ping, CleanEnd, Orderly, Attempts, Failures, Matched, Chained, Awaits;
    ChainPing(log, mode);
    var e := Sent(Ping());
    OrderlyChunks(e);
    OrderlyAppend(log, [e]);
    CountStep(log, e, mode);
    NoReplies();
    MatchedStep(log, [e], mode);
    assert (log + [e])[..|log + [e]| - 1] == log;
  }

  lemma SendFailsStep(log: seq<Event>, mode: Mode, err: nat, retry: nat)
    requires Progress(log, mode, err, retry, false) && retry < RETRY_COUNT && err <= ERROR_COUNT
    ensures var t := log + [NotSent(Ping())] + [ResetTx, ResetRx];
      Progress(t, mode, err + 1, 0, false) && Matched(t, mode) == Matched(log, mode)
  {
    hide Ping, CleanEnd, Matched, Attempts, Failures, Orderly, Chained, Awaits;
    ChainPing(log, mode);
    OrderlyChunks(NoReply);
    var chunk := [NotSent(Ping())] + [ResetTx, ResetRx];
    assert log + [NotSent(Ping())] + [ResetTx, ResetRx] == log + chunk;
    OrderlyAppend(log, chunk);
    CleanNone(log + chunk, mode);
    assert !Matched([NotSent(Ping())], mode) && !Matched([ResetTx, ResetRx], mode) by { NoReplies(); }
    CountStep(log, NotSent(Ping()), mode);
    CountResets(log + [NotSent(Ping())], true, mode);
    MatchedStep(log, [NotSent(Ping())], mode);
    MatchedStep(log + [NotSent(Ping())], [ResetTx, ResetRx], mode);
  }

  lemma NoReplyStep(log: seq<Event>, mode: Mode, err: nat, retry: nat)
    requires Progress(log, mode, err, retry, true) && err <= ERROR_COUNT
    ensures var t := log + [NoReply] + [ResetRx];
      Progress(t, mode, err + 1, 0, false) && Matched(t, mode) == Matched(log, mode)
  {
    hide Ping, CleanEnd, Matched, Attempts, Failures, Orderly, Chained, Awaits;
    ChainAnswer(log, NoReply, mode);
    OrderlyChunks(NoReply);
    var chunk := [NoReply] + [ResetRx];
    assert log + [NoReply] + [ResetRx] == log + chunk;
    OrderlyAppend(log, chunk);
    CleanNone(log + chunk, mode);
    NoReplies();
    CountStep(log, NoReply, mode);
    CountResets(log + [NoReply], false, mode);
    MatchedStep(log, [NoReply], mode);
    MatchedStep(log + [NoReply], [ResetRx], mode);
  }

  lemma WrongReplyStep(log: seq<Event>, mode: Mode, err: nat, retry: nat, e: Event)
    requires Progress(log, mode, err, retry, true) && err <= ERROR_COUNT && e.Reply? && !Right(e, mode)
    ensures Progress(log + [e], mode, err + 1, 0, true) && Matched(log + [e], mode) == Matched(log, mode)
  {
    hide Ping, IsAnswer, CleanEnd, Orderly, Attempts, Failures, Chained, Awaits;
    ChainAnswer(log, e, mode);
    OrderlyChunks(e);
    OrderlyAppend(log, [e]);
    CleanNone(log + [e], mode);
    CountStep(log, e, mode);
    MatchedStep(log, [e], mode);
  }

  lemma RightReplyStep(log: seq<Event>, mode: Mode, err: nat, retry: nat, e: Event)
    requires Progress(log, mode, err, retry, true) && Right(e, mode)
    ensures Progress(log + [e], mode, err, retry, false) && Matched(log + [e], mode)
  {
    hide Ping, IsAnswer, CleanEnd, Orderly, Attempts, Failures, Chained, Awaits;
    ChainAnswer(log, e, mode);
    OrderlyChunks(e);
    OrderlyAppend(log, [e]);
    CountStep(log, e, mode);
    MatchedStep(log, [e], mode);
    assert Right([e][0], mode);
    if retry > 0 {
      var front := log[..|log| - 1];
      CleanMore(front, mode, retry - 1, log[|log| - 1].msg, e);
      assert front + [Sent(log[|log| - 1].msg), e] == log + [e];
    } else {
      CleanNone(log + [e], mode);
    }
  }

  /** None of these is a match. */
  lemma NoReplies()
    ensures forall mode :: !Matched([NotSent(Ping())], mode) && !Matched([ResetTx, ResetRx], mode)
    ensures forall mode :: !Matched([NoReply], mode) && !Matched([ResetRx], mode) && !Matched([Sent(Ping())], mode)
  {
    hide Ping, IsAnswer;
  }

  lemma CleanNone(log: seq<Event>, mode: Mode)
    ensures CleanEnd(log, mode, 0)
  {
  }

  // ---- calls ----

  /** One call of IsReady: its traffic, and the library's state before and after. */
  datatype Call = Call(wanted: Mode, tail: seq<Event>, before: nat, after: nat, ok: bool)

  /** What a call may do. */
  ghost predicate Possible(c: Call) {
    if c.before != STATE_DEINIT then
      !c.ok && c.tail == [] && c.after == c.before
    else
      && Traffic(c.tail, c.wanted, c.ok)
      && c.after == if !Matched(c.tail, c.wanted) then STATE_DEINIT
                    else if c.wanted.Polling? then STATE_READY else STATE_INIT
  }

  ghost predicate Consecutive(calls: seq<Call>) {
    && (forall k | 0 <= k < |calls| :: Possible(calls[k]))
    && (forall k | 0 < k < |calls| :: calls[k].before == calls[k - 1].after)
  }

  function AllTraffic(calls: seq<Call>): seq<Event> {
    if calls == [] then [] else AllTraffic(calls[..|calls| - 1]) + calls[|calls| - 1].tail
  }

  // ---- the library ----

  datatype Outcome = Silent | Wrong | Good

  /** struct rtss_upd_lib_handle. */
  class Library {
    var state: nat
    var mode: Mode

    constructor ()
      ensures state == STATE_DEINIT && mode == NoMode
    {
      state, mode := STATE_DEINIT, NoMode;
    }

    /** rtss_upd_verify_handshake. */
    method VerifyHandshake(wanted: Mode, tx: array<bv8>, rx: array<bv8>) returns (ok: bool)
      requires tx.Length == rx.Length == MESSAGE_SIZE && tx != rx
      requires tx[..] == Ping()
      modifies this, tx, rx
      ensures ok == Right(Reply(old(rx[..])), wanted)
      ensures if ok then mode == wanted && state == (if wanted.Polling? then STATE_READY else STATE_INIT)
              else mode == old(mode) && state == old(state)
    {
      hide Stored, Hello, Ping, EthernetCrc;
      PingUnsealed();
      StoreWord(rx, 0, 0);
      StoreWord(tx, 0, 0);
      StoreWord(tx, DIRECTION, 1);
      if tx[..] != rx[..] {
        return false;
      }
      if wanted.Polling? {
        mode, state := Polling, STATE_READY;
      } else if wanted.Events? {
        mode, state := Events, STATE_INIT;
      } else {
        return false;
      }
      ok := true;
    }

    /** The state that the traffic of a call leaves. */
    ghost predicate StateAfter(tail: seq<Event>, wanted: Mode, oldState: nat, oldMode: Mode)
      reads this
    {
      if Matched(tail, wanted) then
        mode == wanted && state == (if wanted.Polling? then STATE_READY else STATE_INIT)
      else
        mode == oldMode && state == oldState
    }

    /** From the label rtss_upd_ping: packs and sends a ping; when it cannot be sent both
        channels are reset. */
    method SendPing(wanted: Mode, link: Link, tx: array<bv8>, err: nat, retry: nat, ghost tail: seq<Event>)
      returns (sent: bool, ghost now: seq<Event>)
      requires tx.Length == MESSAGE_SIZE && Progress(tail, wanted, err, retry, false)
      requires err <= ERROR_COUNT && retry < RETRY_COUNT
      modifies link, tx
      ensures tx[..] == Ping()
      ensures tail <= now && link.log == old(link.log) + now[|tail|..]
      ensures if sent then Progress(now, wanted, err, retry + 1, true) else Progress(now, wanted, err + 1, 0, false)
      ensures Matched(now, wanted) == Matched(tail, wanted)
    {
      hide Ping, Progress, Matched;
      var _ := Pack(tx);
      sent := link.Send(tx[..]);
      if sent {
        SendStep(tail, wanted, err, retry);
        now := tail + [Sent(Ping())];
      } else {
        link.Reset(true);
        SendFailsStep(tail, wanted, err, retry);
        now := tail + [NotSent(Ping())] + [ResetTx, ResetRx];
        assert now[|tail|..] == [NotSent(Ping())] + [ResetTx, ResetRx];
      }
    }

    /** From the label rtss_upd_ping_recovery: waits for the answer. Silence resets the receiving
        channel; a wrong answer repacks the ping that the next one is compared with. */
    method Await(wanted: Mode, link: Link, tx: array<bv8>, rx: array<bv8>, err: nat, retry: nat, ghost tail: seq<Event>)
      returns (outcome: Outcome, ghost now: seq<Event>)
      requires tx.Length == rx.Length == MESSAGE_SIZE && tx != rx && tx[..] == Ping()
      requires Progress(tail, wanted, err, retry, true) && err <= ERROR_COUNT
      modifies this, link, tx, rx
      ensures tail <= now && link.log == old(link.log) + now[|tail|..]
      ensures outcome.Silent? ==> Progress(now, wanted, err + 1, 0, false)
      ensures outcome.Wrong? ==> Progress(now, wanted, err + 1, 0, true) && tx[..] == Ping()
      ensures outcome.Good? ==> Progress(now, wanted, err, retry, false)
      ensures Matched(now, wanted) == (Matched(tail, wanted) || outcome.Good?)
      ensures if outcome.Good? then mode == wanted && state == (if wanted.Polling? then STATE_READY else STATE_INIT)
              else mode == old(mode) && state == old(state)
    {
      hide Ping, IsAnswer, Progress, Matched, Right;
      forall k | 0 <= k < MESSAGE_SIZE {
        rx[k] := 0;
      }
      var read := link.Read(rx);
      if !read {
        link.Reset(false);
        NoReplyStep(tail, wanted, err, retry);
        now := tail + [NoReply] + [ResetRx];
        assert now[|tail|..] == [NoReply] + [ResetRx];
        return Silent, now;
      }
      ghost var reply := Reply(rx[..]);
      now := tail + [reply];
      var right := VerifyHandshake(wanted, tx, rx);
      if right {
        RightReplyStep(tail, wanted, err, retry, reply);
        return Good, now;
      }
      WrongReplyStep(tail, wanted, err, retry, reply);
      var _ := Pack(tx);
      return Wrong, now;
    }

    /** rtss_upd_hello_ping against any peer. */
    method HelloPing(wanted: Mode, link: Link) returns (ok: bool)
      modifies this, link
      ensures old(link.log) <= link.log
      ensures var tail := link.log[|old(link.log)|..];
        Traffic(tail, wanted, ok) && StateAfter(tail, wanted, old(state), old(mode))
    {
      hide Ping, Progress, Matched, Traffic;
      var rx := new bv8[MESSAGE_SIZE](_ => 0);
      var tx := new bv8[MESSAGE_SIZE](_ => 0);
      var retry: nat := 0;
      var err: nat := 0;
      var pinging := true;
      ghost var tail: seq<Event> := [];
      ghost var before := link.log;
      Began(wanted);
      while true
        invariant fresh(rx) && fresh(tx) && rx != tx && rx.Length == tx.Length == MESSAGE_SIZE
        invariant link.log == before + tail
        invariant Progress(tail, wanted, err, retry, !pinging)
        invariant StateAfter(tail, wanted, old(state), old(mode))
        invariant err <= ERROR_COUNT + 1 && (pinging ==> retry < RETRY_COUNT) && (err > ERROR_COUNT ==> retry == 0)
        invariant retry <= RETRY_COUNT && (!pinging ==> err <= ERROR_COUNT && tx[..] == Ping())
        decreases ERROR_COUNT + 1 - err, 2 * (RETRY_COUNT - retry) + if pinging then 0 else 1
      {
        ghost var now: seq<Event>;
        if pinging {
          if err > ERROR_COUNT {
            ProgressEnds(tail, wanted, err, retry, false);
            return false;
          }
          var sent;
          sent, now := SendPing(wanted, link, tx, err, retry, tail);
          Appended(before, tail, now);
          if sent {
            retry := retry + 1;
            pinging := false;
          } else {
            retry := 0;
            err := err + 1;
          }
        } else {
          var outcome;
          outcome, now := Await(wanted, link, tx, rx, err, retry, tail);
          Appended(before, tail, now);
          if outcome.Silent? {
            retry := 0;
            err := err + 1;
            pinging := true;
          } else if outcome.Wrong? {
            retry := 0;
            err := err + 1;
            if err > ERROR_COUNT {
              ProgressEnds(now, wanted, err, retry, true);
              return false;
            }
          } else if retry < RETRY_COUNT {
            pinging := true;
          } else {
            ProgressEnds(now, wanted, err, retry, false);
            return true;
          }
        }
        tail := now;
      }
    }

    /** rtss_upd_is_ready. */
    method IsReady(wanted: Mode, link: Link) returns (ok: bool)
      modifies this, link
      ensures old(link.log) <= link.log
      ensures var tail := link.log[|old(link.log)|..];
        && Possible(Call(wanted, tail, old(state), state, ok))
        && mode == if old(state) == STATE_DEINIT && Matched(tail, wanted) then wanted else old(mode)
    {
      if state != STATE_DEINIT {
        return false;
      }
      ok := HelloPing(wanted, link);
    }

    /** A client that asks again and again, each time in the mode it likes. At most one answer
        is yes, and after a no with a matching reply no call sends anything. */
    method AskRepeatedly(modes: seq<Mode>, link: Link) returns (answers: seq<bool>, ghost calls: seq<Call>)
      modifies this, link
      ensures Recorded(calls, modes, answers, old(state), state) && |answers| == |modes|
      ensures link.log == old(link.log) + AllTraffic(calls)
      ensures forall i, j | 0 <= i < j < |modes| :: !(answers[i] && answers[j])
      ensures forall i, j | 0 <= i < j < |modes| && calls[i].before == STATE_DEINIT && !answers[i]
                         && Matched(calls[i].tail, modes[i]) :: !answers[j] && calls[j].tail == []
    {
      hide Possible, Matched, Recorded, AllTraffic;
      answers, calls := [], [];
      ghost var before, start := link.log, state;
      NothingRecorded(modes, state);
      assert link.log == before + AllTraffic(calls);
      while |answers| < |modes|
        invariant |answers| <= |modes| && Recorded(calls, modes, answers, start, state)
        invariant link.log == before + AllTraffic(calls)
      {
        ghost var log, from := link.log, state;
        var ok := IsReady(modes[|answers|], link);
        ghost var call := Call(modes[|answers|], link.log[|log|..], from, state, ok);
        AllTrafficStep(before, calls, call, log, link.log);
        RecordedStep(calls, modes, answers, start, call);
        calls := calls + [call];
        answers := answers + [ok];
      }
      AtMostOneYes(calls, modes, answers, start, state);
    }
  }

  /** The calls made so far: one for each answer, in the modes asked for, one after the other. */
  ghost predicate Recorded(calls: seq<Call>, modes: seq<Mode>, answers: seq<bool>, start: nat, now: nat) {
    && |calls| == |answers| <= |modes| && Consecutive(calls)
    && (forall k | 0 <= k < |calls| :: calls[k].wanted == modes[k] && calls[k].ok == answers[k])
    && (if calls == [] then start == now else calls[0].before == start && calls[|calls| - 1].after == now)
  }

  lemma NothingRecorded(modes: seq<Mode>, start: nat)
    ensures Recorded([], modes, [], start, start) && AllTraffic([]) == []
  {
  }

  lemma RecordedStep(calls: seq<Call>, modes: seq<Mode>, answers: seq<bool>, start: nat, call: Call)
    requires Recorded(calls, modes, answers, start, call.before) && |answers| < |modes|
    requires Possible(call) && call.wanted == modes[|answers|]
    ensures Recorded(calls + [call], modes, answers + [call.ok], start, call.after)
  {
    hide Possible;
  }

  lemma AllTrafficStep(before: seq<Event>, calls: seq<Call>, call: Call, log: seq<Event>, now: seq<Event>)
    requires log == before + AllTraffic(calls) && log <= now && call.tail == now[|log|..]
    ensures now == before + AllTraffic(calls + [call])
  {
    assert (calls + [call])[..|calls|] == calls;
    assert now == log + call.tail;
  }

  lemma Appended(log: seq<Event>, tail: seq<Event>, now: seq<Event>)
    requires tail <= now
    ensures log + tail + now[|tail|..] == log + now && (log + now)[|log|..] == now
  {
  }

  lemma ProgressEnds(log: seq<Event>, mode: Mode, err: nat, retry: nat, open: bool)
    requires Progress(log, mode, err, retry, open)
    requires (err == 11 && retry == 0) || (err <= 10 && retry == RETRY_COUNT && !open)
    ensures Traffic(log, mode, err <= 10)
  {
  }

  // ---- sequences of calls ----

  lemma CleanIsMatched(log: seq<Event>, mode: Mode)
    requires CleanEnd(log, mode, 3)
    ensures Matched(log, mode)
  {
    hide Right;
    assert Right(log[|log| - 2 * 3 + 2 * 2 + 1], mode);
  }

  lemma SuccessLeavesState(c: Call)
    requires Possible(c) && c.ok
    ensures c.before == STATE_DEINIT && c.after != STATE_DEINIT
  {
    hide CleanEnd, Matched, Orderly, Attempts, Failures;
    CleanIsMatched(c.tail, c.wanted);
  }

  lemma {:induction false} StaysLeft(calls: seq<Call>, i: nat, j: nat)
    requires Consecutive(calls) && i < j < |calls| && calls[i].after != STATE_DEINIT
    ensures calls[j].before == calls[i].after && !calls[j].ok && calls[j].tail == []
    decreases j
  {
    hide Traffic, Matched;
    assert Possible(calls[j]);
    if i + 1 < j {
      StaysLeft(calls, i, j - 1);
      assert Possible(calls[j - 1]);
    }
  }

  /** At most one call ever succeeds. */
  lemma AtMostOneReady(calls: seq<Call>, i: nat, j: nat)
    requires Consecutive(calls) && i < |calls| && j < |calls| && calls[i].ok && calls[j].ok
    ensures i == j
  {
    hide Traffic, Matched;
    assert Possible(calls[i]) && Possible(calls[j]);
    SuccessLeavesState(calls[i]);
    SuccessLeavesState(calls[j]);
    if i < j {
      StaysLeft(calls, i, j);
    } else if j < i {
      StaysLeft(calls, j, i);
    }
  }

  /** A failed call shuts out every later one, without a message being sent, exactly when one
      of its replies matched. */
  lemma FailureLocksOut(calls: seq<Call>, i: nat)
    requires Consecutive(calls) && i + 1 < |calls| && calls[i].before == STATE_DEINIT && !calls[i].ok
    ensures calls[i + 1].before != STATE_DEINIT <==> Matched(calls[i].tail, calls[i].wanted)
    ensures Matched(calls[i].tail, calls[i].wanted) ==>
      (forall j | i < j < |calls| :: !calls[j].ok && calls[j].tail == [])
  {
    hide Traffic, Matched;
    assert Possible(calls[i]);
    if Matched(calls[i].tail, calls[i].wanted) {
      forall j | i < j < |calls|
        ensures !calls[j].ok && calls[j].tail == []
      {
        StaysLeft(calls, i, j);
      }
    }
  }

  /** Both over all pairs of calls. */
  lemma AtMostOneYes(calls: seq<Call>, modes: seq<Mode>, answers: seq<bool>, start: nat, now: nat)
    requires Recorded(calls, modes, answers, start, now) && |answers| == |modes|
    ensures |calls| == |modes|
    ensures forall i, j | 0 <= i < j < |modes| :: !(answers[i] && answers[j])
    ensures forall i, j | 0 <= i < j < |modes| && calls[i].before == STATE_DEINIT && !answers[i]
                       && Matched(calls[i].tail, modes[i]) :: !answers[j] && calls[j].tail == []
  {
    hide Possible, Matched;
    forall i, j | 0 <= i < j < |modes|
      ensures !(answers[i] && answers[j])
      ensures calls[i].before == STATE_DEINIT && !answers[i] && Matched(calls[i].tail, modes[i]) ==>
        !answers[j] && calls[j].tail == []
    {
      if answers[i] && answers[j] {
        AtMostOneReady(calls, i, j);
      }
      if calls[i].before == STATE_DEINIT && !answers[i] {
        FailureLocksOut(calls, i);
      }
    }
  }

  // ---- a failed call that locks the library ----

  /** The answer to a ping, its checksum field 0. */
  function Answer(): (m: seq<bv8>)
    ensures |m| == MESSAGE_SIZE
  {
    Stored(Hello(), DIRECTION, 1)
  }

  /** n pings that cannot be sent. */
  function Refusals(n: nat): seq<Event> {
    if n == 0 then [] else Refusals(n - 1) + ([NotSent(Ping())] + [ResetTx, ResetRx])
  }

  /** One ping answered, then eleven that cannot be sent. */
  function LockingTraffic(): seq<Event> {
    [Sent(Ping()), Reply(Answer())] + Refusals(11)
  }

  lemma AnswerIsRight()
    ensures Right(Reply(Answer()), Polling)
  {
    var a := Answer();
    assert Byte0(0) == 0 && Byte1(0) == 0 && Byte2(0) == 0 && Byte3(0) == 0;
    assert a[..4] == Hello()[..4] == Zeros(4);
    assert Cleared(a) == a;
  }

  lemma {:induction false} RefusalsCount(log: seq<Event>, mode: Mode, n: nat)
    requires Orderly(log) && Chained(log, mode) && Awaits(log, mode, false)
    ensures var t := log + Refusals(n);
      && Orderly(t) && Chained(t, mode) && Awaits(t, mode, false)
      && Attempts(t) == Attempts(log) + n && Failures(t, mode) == Failures(log, mode) + n
  {
    hide Ping, Orderly, Attempts, Failures, Chained, Awaits;
    if n == 0 {
      assert log + Refusals(n) == log;
    } else {
      RefusalsCount(log, mode, n - 1);
      var t := log + Refusals(n - 1);
      var chunk := [NotSent(Ping())] + [ResetTx, ResetRx];
      assert log + Refusals(n) == t + chunk;
      assert t + chunk == t + [NotSent(Ping())] + [ResetTx, ResetRx];
      ChainPing(t, mode);
      OrderlyChunks(NoReply);
      OrderlyAppend(t, chunk);
      CountStep(t, NotSent(Ping()), mode);
      CountResets(t + [NotSent(Ping())], true, mode);
    }
  }

  /** One ping and its answer. */
  lemma LockingStart()
    ensures var log := [Sent(Ping()), Reply(Answer())];
      && Orderly(log) && Chained(log, Polling) && Awaits(log, Polling, false)
      && Attempts(log) == 1 && Failures(log, Polling) == 0
  {
    hide Ping, Answer, IsAnswer, Orderly, Attempts, Failures, Follows;
    var sent, right := Sent(Ping()), Reply(Answer());
    AnswerIsRight();
    OrderlyChunks(right);
    OrderlyAppend([sent], [right]);
    NothingCounted();
    assert [] + [sent] == [sent] && [sent] + [right] == [sent, right];
    CountStep([], sent, Polling);
    CountStep([sent], right, Polling);
    ChainPing([], Polling);
    ChainAnswer([sent], right, Polling);
  }

  /** This call fails, yet leaves the library ready, so that the next one is refused unasked. */
  lemma LockingTrafficLocks()
    ensures Traffic(LockingTraffic(), Polling, false) && Matched(LockingTraffic(), Polling)
    ensures Consecutive([Call(Polling, LockingTraffic(), STATE_DEINIT, STATE_READY, false),
                         Call(Polling, [], STATE_READY, STATE_READY, false)])
  {
    hide Ping, Answer, IsAnswer, Orderly, Attempts, Failures, Refusals, CleanEnd, Chained, Awaits;
    LockingStart();
    RefusalsCount([Sent(Ping()), Reply(Answer())], Polling, 11);
    AnswerIsRight();
    assert LockingTraffic()[1] == Reply(Answer());
  }

  lemma NothingCounted()
    ensures Attempts([]) == 0 && Failures([], Polling) == 0
  {
  }
}

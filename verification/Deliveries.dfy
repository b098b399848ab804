/** What one write hands to the stream and one read takes from it, in every interleaving. */
module Deliveries {
  import opened Words
  import opened Ring
  import opened Protocol

  /** Actions k to m of a run. */
  lemma RunPart(states: seq<State>, actions: seq<Action>, k: nat, m: nat)
    requires Run(states, actions) && k <= m <= |actions|
    ensures Stretch(states[k..m + 1], actions[k..m])
    ensures Inv(states[k])
  {
    hide Inv, Step, Initial;
    RunHolds(states, actions, k);
    var later, rest := states[k..m + 1], actions[k..m];
    forall j | 0 <= j < |rest|
      ensures Step(later[j], rest[j], later[j + 1])
    {
      assert Step(states[k + j], actions[k + j], states[k + j + 1]);
    }
  }

  // ---- one write ----

  /** No write is under way, or only its trigger is missing. */
  predicate WriteOver(s: State) {
    s.writer.WIdle? || s.writer.WTrigger?
  }

  /** The whole items of a buffer. */
  function WholeItems(data: seq<byte>, z: nat): seq<byte>
    requires z > 0
  {
    SizeOfQuotient(|data|, z);
    data[..Size(|data| / z, z)]
  }

  /** A write of data is under way, and nothing has been published since. */
  ghost predicate Writing(s: State, data: seq<byte>, before: seq<byte>) {
    && s.z > 0 && s.produced == before
    && (match s.writer
        case WIdle => false
        case WRoomIn(d) => d == data
        case WRoomOut(d, _) => d == data
        case WCheckIn(items, k) => k == |data| / s.z && items == WholeItems(data, s.z)
        case WCheckOut(items, k, _) => k == |data| / s.z && items == WholeItems(data, s.z)
        case WItem(items, k) => k == |data| / s.z && items == WholeItems(data, s.z)
        case WCopy(items, k, _, _) => k == |data| / s.z && items == WholeItems(data, s.z)
        case WTrigger => false)
  }

  /** The room is there, or the room check has been passed. */
  ghost predicate RoomFor(s: State, data: seq<byte>)
    requires Counts(s)
  {
    s.writer.WRoomIn? || s.writer.WRoomOut? ==> |data| <= Size(s.n - 1 - (s.published - s.taken), s.z)
  }

  /** Steps the writer has left, at most. */
  function WriterLeft(s: State, data: seq<byte>): int
    requires s.z > 0
  {
    var all := |WholeItems(data, s.z)|;
    match s.writer
    case WRoomIn(_) => all + 6
    case WRoomOut(_, _) => all + 5
    case WCheckIn(_, _) => all + 4
    case WCheckOut(_, _, _) => all + 3
    case WItem(_, _) => all + 2
    case WCopy(_, _, _, j) => all - j + 1
    case _ => 0
  }

  /** What the action that ends a write leaves: nothing published, or the whole items. */
  ghost predicate Published(t: State, data: seq<byte>, before: seq<byte>) {
    t.z > 0 && t.produced == before + WholeItems(data, t.z)
  }

  /** What one step of the writer makes of a write. */
  ghost predicate Advanced(s: State, t: State, data: seq<byte>, before: seq<byte>)
    requires Counts(s) && s.z > 0
  {
    && Counts(t) && t.z == s.z
    && (if WriteOver(t) then t.produced == before || Published(t, data, before)
        else Writing(t, data, before) && WriterLeft(t, data) == WriterLeft(s, data) - 1)
    && (RoomFor(s, data) ==> if WriteOver(t) then Published(t, data, before) else RoomFor(t, data))
  }

  /** The two looks at the reader's index. */
  lemma WriterLooks(s: State, data: seq<byte>, before: seq<byte>)
    requires Inv(s) && LocalsInRange(s) && Writing(s, data, before) && (s.writer.WRoomOut? || s.writer.WCheckOut?)
    ensures Advanced(s, WriterDoes(s), data, before)
  {
    hide Size, Index, Stream, WakeOk, ReaderOk, WholeItems;
    ValidOfIndices(s.n, s.published, s.taken);
    SizeOfQuotient(|data|, s.z);
    WholeDef(data, s.z);
  }

  lemma WriterMoves(s: State, data: seq<byte>, before: seq<byte>)
    requires Inv(s) && LocalsInRange(s) && Writing(s, data, before) && !s.writer.WRoomOut? && !s.writer.WCheckOut?
    ensures Advanced(s, WriterDoes(s), data, before)
  {
    hide Size, Index, CopyAddress, Stream, WakeOk, ReaderOk, WholeItems;
    WriterStepHolds(s);
    InvCounts(WriterDoes(s));
    WholeDef(data, s.z);
  }

  lemma WriterActs(s: State, data: seq<byte>, before: seq<byte>)
    requires Inv(s) && LocalsInRange(s) && Writing(s, data, before)
    ensures Counts(s) && Advanced(s, WriterDoes(s), data, before)
  {
    hide Writing, WriterDoes, Advanced, LocalsInRange;
    InvCounts(s);
    if s.writer.WRoomOut? || s.writer.WCheckOut? {
      WriterLooks(s, data, before);
    } else {
      WriterMoves(s, data, before);
    }
  }

  lemma WholeDef(data: seq<byte>, z: nat)
    requires z > 0
    ensures Size(|data| / z, z) <= |data| && WholeItems(data, z) == data[..Size(|data| / z, z)]
  {
    SizeOfQuotient(|data|, z);
  }

  lemma InvCounts(s: State)
    requires Inv(s)
    ensures Counts(s) && Sized(s)
  {
  }

  /** Everything else leaves the write where it is, and only makes room. */
  lemma OthersAct(s: State, a: Action, data: seq<byte>, before: seq<byte>)
    requires Inv(s) && LocalsInRange(s) && Writing(s, data, before) && a != WriterStep
    ensures var t := Do(s, a);
      && Counts(t) && t.z == s.z && t.writer == s.writer
      && Writing(t, data, before) && WriterLeft(t, data) == WriterLeft(s, data)
      && (RoomFor(s, data) ==> RoomFor(t, data))
  {
    hide Size, Index, CopyAddress, Stream, WakeOk, ReaderOk, WholeItems, WriterOk;
    var t := Do(s, a);
    StepHolds(s, a);
    InvCounts(t);
    TakenGrows(s, a);
    if s.taken <= t.taken {
      SizeMono(s.n - 1 - (s.published - s.taken), t.n - 1 - (t.published - t.taken), s.z);
    }
  }

  function WriterSteps(actions: seq<Action>): nat {
    if actions == [] then 0 else (if actions[0] == WriterStep then 1 else 0) + WriterSteps(actions[1..])
  }

  /** A write that ends within a stretch, at its last state and not before. */
  lemma {:induction false} WriteEnds(states: seq<State>, actions: seq<Action>, data: seq<byte>, before: seq<byte>)
    requires Stretch(states, actions) && Counts(states[0]) && Writing(states[0], data, before)
    requires WriteOver(states[|actions|]) && forall j | 0 < j < |actions| :: !WriteOver(states[j])
    ensures states[|actions|].produced == before || Published(states[|actions|], data, before)
    ensures RoomFor(states[0], data) ==> Published(states[|actions|], data, before)
    decreases |actions|
  {
    hide Inv, Counts, LocalsInRange, Do, WriterDoes, Stretch, Published, RoomFor, WholeItems;
    StretchParts(states, actions);
    assert actions != [];
    StretchStep(states, actions);
    var rest, later := actions[1..], states[1..];
    StretchParts(later, rest);
    DoWriter(states[0]);
    if actions[0] == WriterStep {
      WriterActs(states[0], data, before);
    } else {
      OthersAct(states[0], actions[0], data, before);
    }
    if |actions| > 1 {
      assert forall j | 0 < j < |rest| :: later[j] == states[j + 1];
      WriteEnds(later, rest, data, before);
    }
  }

  lemma DoWriter(s: State)
    requires Sized(s) && LocalsInRange(s)
    ensures Do(s, WriterStep) == WriterDoes(s)
  {
  }

  /** The first state in which the write is over. */
  ghost predicate EndsAt(states: seq<State>, e: nat) {
    0 < e < |states| && WriteOver(states[e]) && forall j | 0 < j < e :: !WriteOver(states[j])
  }

  /** Enough steps of the writer bring the write to its end, wherever they fall. */
  lemma {:induction false} WriteComesToEnd(states: seq<State>, actions: seq<Action>, data: seq<byte>, before: seq<byte>)
    returns (e: nat)
    requires Stretch(states, actions) && Sized(states[0]) && Writing(states[0], data, before)
    requires WriterSteps(actions) >= WriterLeft(states[0], data)
    ensures EndsAt(states, e) && e <= |actions|
    decreases |actions|
  {
    hide Inv, Counts, LocalsInRange, Do, WriterDoes, Stretch, Published, RoomFor, WholeItems, WriterLeft;
    StretchParts(states, actions);
    StillLeft(states[0], data, before);
    StretchStep(states, actions);
    var rest, later := actions[1..], states[1..];
    StretchParts(later, rest);
    DoWriter(states[0]);
    if actions[0] == WriterStep {
      WriterActs(states[0], data, before);
      if WriteOver(states[1]) {
        return 1;
      }
    } else {
      OthersAct(states[0], actions[0], data, before);
    }
    var f := WriteComesToEnd(later, rest, data, before);
    e := f + 1;
    assert !WriteOver(states[1]);
    forall j | 0 < j < e
      ensures !WriteOver(states[j])
    {
      if j > 1 {
        assert states[j] == later[j - 1];
      }
    }
  }

  lemma StillLeft(s: State, data: seq<byte>, before: seq<byte>)
    requires Inv(s) && Writing(s, data, before)
    ensures WriterLeft(s, data) > 0
  {
    hide Size, Index, CopyAddress, Stream, WakeOk, ReaderOk, WholeItems;
  }

  lemma BeginsWriting(s: State, data: seq<byte>, t: State)
    requires Inv(s) && LocalsInRange(s) && s.writer.WIdle? && data != [] && t == Do(s, BeginWrite(data))
    ensures Inv(t) && Counts(s) && Counts(t) && Sized(t) && Writing(t, data, s.produced) && t.z == s.z
    ensures WriterLeft(t, data) == |WholeItems(data, s.z)| + 6
    ensures |data| <= Size(s.n - 1 - (s.published - s.taken), s.z) ==> RoomFor(t, data)
  {
    hide Size, Index, CopyAddress, Stream, WakeOk, ReaderOk, WholeItems;
    StepHolds(s, BeginWrite(data));
  }

  /** A write publishes the whole items of its buffer or nothing, and surely its items if they
      fit at the moment it begins, whatever the reader does meanwhile. */
  lemma WritePublishesItsData(states: seq<State>, actions: seq<Action>, k: nat, m: nat, data: seq<byte>)
    requires Run(states, actions) && k < m <= |actions|
    requires states[k].writer.WIdle? && actions[k] == BeginWrite(data) && data != []
    requires WriteOver(states[m]) && forall j | k < j < m :: !WriteOver(states[j])
    ensures states[m].z == states[k].z > 0 && Counts(states[k])
    ensures 0 <= (|data| / states[k].z) * states[k].z <= |data|
    ensures var was, now := states[k].produced, states[m].produced;
      && (now == was || now == was + data[..(|data| / states[k].z) * states[k].z])
      && (|data| <= (states[k].n - 1 - (states[k].published - states[k].taken)) * states[k].z ==>
            now == was + data[..(|data| / states[k].z) * states[k].z])
  {
    hide Inv, LocalsInRange, Do, Stretch, Writing, Step, Counts, WriteOver;
    RunHolds(states, actions, k);
    SizedOf(states[k]);
    assert Step(states[k], actions[k], states[k + 1]) by { RunStep(states, actions, k); }
    StepIsDo(states[k], actions[k], states[k + 1]);
    BeginsWriting(states[k], data, states[k + 1]);
    RunPart(states, actions, k + 1, m);
    BeganIsOpen(states[k + 1], data, states[k].produced);
    var later, rest := states[k + 1..m + 1], actions[k + 1..m];
    assert later[0] == states[k + 1] && later[|rest|] == states[m];
    assert forall j | 0 < j < |rest| :: later[j] == states[k + 1 + j];
    WriteEnds(later, rest, data, states[k].produced);
    SameSlots(states, actions, k, m);
    WholeDef(data, states[k].z);
  }

  lemma SizedOf(s: State)
    requires Inv(s)
    ensures Sized(s) && s.z > 0 && Counts(s)
  {
  }

  lemma RunStep(states: seq<State>, actions: seq<Action>, k: nat)
    requires Run(states, actions) && k < |actions|
    ensures Step(states[k], actions[k], states[k + 1])
  {
    hide Step, Initial;
  }

  lemma StepIsDo(s: State, a: Action, t: State)
    requires Sized(s) && LocalsInRange(s) && Step(s, a, t)
    ensures t == Do(s, a)
  {
    hide Do;
  }

  lemma BeganIsOpen(s: State, data: seq<byte>, before: seq<byte>)
    requires Writing(s, data, before)
    ensures !WriteOver(s)
  {
  }

  /** The ring's dimensions never change. */
  lemma {:induction false} SameSlots(states: seq<State>, actions: seq<Action>, k: nat, m: nat)
    requires Run(states, actions) && k <= m <= |actions|
    ensures states[m].n == states[k].n && states[m].z == states[k].z
    decreases m
  {
    hide Inv, Do, Step, Initial;
    if k < m {
      SameSlots(states, actions, k, m - 1);
      RunHolds(states, actions, m - 1);
      SizedOf(states[m - 1]);
      RunStep(states, actions, m - 1);
      StepIsDo(states[m - 1], actions[m - 1], states[m]);
      DoKeepsSlots(states[m - 1], actions[m - 1]);
    }
  }

  lemma DoKeepsSlots(s: State, a: Action)
    requires Sized(s) && LocalsInRange(s)
    ensures Do(s, a).n == s.n && Do(s, a).z == s.z
  {
    hide Size, CopyAddress;
  }

  /** It gets there within its whole items' bytes plus six of the writer's own steps. */
  lemma WriteCompletes(states: seq<State>, actions: seq<Action>, k: nat, m: nat, data: seq<byte>) returns (e: nat)
    requires Run(states, actions) && k < m <= |actions|
    requires states[k].writer.WIdle? && actions[k] == BeginWrite(data) && data != []
    requires states[k].z > 0
    requires WriterSteps(actions[k + 1..m]) >= 6 + (|data| / states[k].z) * states[k].z
    ensures k < e <= m && WriteOver(states[e]) && forall j | k < j < e :: !WriteOver(states[j])
  {
    hide Inv, LocalsInRange, Do, Stretch, Writing, Step, Counts, WriteOver, WriterLeft;
    RunHolds(states, actions, k);
    SizedOf(states[k]);
    RunStep(states, actions, k);
    StepIsDo(states[k], actions[k], states[k + 1]);
    BeginsWriting(states[k], data, states[k + 1]);
    WholeDef(data, states[k].z);
    RunPart(states, actions, k + 1, m);
    BeganIsOpen(states[k + 1], data, states[k].produced);
    var later, rest := states[k + 1..m + 1], actions[k + 1..m];
    var f := WriteComesToEnd(later, rest, data, states[k].produced);
    e := k + 1 + f;
    forall j | k < j < e
      ensures !WriteOver(states[j])
    {
      if j > k + 1 {
        assert states[j] == later[j - k - 1];
      }
    }
  }

  // ---- one read ----

  /** c items are no more than asked for, and no fewer than waited at the start, up to that. */
  predicate Served(c: nat, room: nat, waited: nat) {
    1 <= c <= room && (c >= waited || c == room)
  }

  /** A read for room items is under way; nothing has been taken since, when published items
      were there. */
  ghost predicate Reading(s: State, room: nat, taken: nat, published: nat) {
    && s.taken == taken <= published <= s.published
    && (match s.reader
        case RIdle => false
        case RItemsIn(r) => r == room
        case RItemsOut(r, _, seen) => r == room && seen >= published
        case RPoll(r) => r == room && published == taken
        case RDrain(r) => r == room && published == taken
        case RCheckIn(want) => Served(want, room, published - taken)
        case RCheckOut(want, _, _) => Served(want, room, published - taken)
        case RItem(k) => Served(k, room, published - taken)
        case RCopy(k, _, _) => Served(k, room, published - taken))
  }

  /** What the action that ends a read leaves. */
  ghost predicate ReadEnded(t: State, room: nat, taken: nat, published: nat) {
    && t.reader.RIdle? && taken <= published
    && (t.taken == taken == published || (t.taken > taken && Served(t.taken - taken, room, published - taken)))
  }

  lemma ReaderActs(s: State, room: nat, taken: nat, published: nat)
    requires Inv(s) && LocalsInRange(s) && Reading(s, room, taken, published) && room > 0
    ensures var t := ReaderDoes(s);
      && (if t.reader.RIdle? then ReadEnded(t, room, taken, published) else Reading(t, room, taken, published))
      && (t.reader.RIdle? ==> t.taken > taken)
  {
    hide Size, Index, CopyAddress, Stream, WakeOk, WriterOk;
    match s.reader {
      case RItemsOut(_, _, seen) => ValidOfIndices(s.n, seen, s.taken);
      case RCheckOut(_, _, seen) => ValidOfIndices(s.n, seen, s.taken);
      case _ =>
    }
  }

  lemma OthersLetRead(s: State, a: Action, room: nat, taken: nat, published: nat)
    requires Sized(s) && LocalsInRange(s) && Reading(s, room, taken, published) && a != ReaderStep
    ensures var t := Do(s, a);
      && (if t.reader.RIdle? then ReadEnded(t, room, taken, published) else Reading(t, room, taken, published))
      && (a != PollEnds ==> !t.reader.RIdle?)
  {
    hide Size, CopyAddress;
  }

  lemma DoReading(s: State, a: Action, room: nat, taken: nat, published: nat)
    requires Inv(s) && LocalsInRange(s) && Reading(s, room, taken, published) && room > 0
    ensures var t := Do(s, a);
      && (if t.reader.RIdle? then ReadEnded(t, room, taken, published) else Reading(t, room, taken, published))
      && (a != PollEnds && t.reader.RIdle? ==> t.taken > taken)
  {
    hide Inv, LocalsInRange, Do, ReaderDoes, Reading, ReadEnded;
    SizedOf(s);
    if a == ReaderStep {
      DoReader(s);
      ReaderActs(s, room, taken, published);
    } else {
      OthersLetRead(s, a, room, taken, published);
    }
  }

  lemma {:induction false} ReadEnds(states: seq<State>, actions: seq<Action>, room: nat, taken: nat, published: nat)
    requires Stretch(states, actions) && Reading(states[0], room, taken, published) && room > 0
    requires states[|actions|].reader.RIdle? && forall j | 0 < j < |actions| :: !states[j].reader.RIdle?
    ensures ReadEnded(states[|actions|], room, taken, published)
    ensures PollEnds !in actions ==> states[|actions|].taken > taken
    decreases |actions|
  {
    hide Inv, LocalsInRange, Do, Stretch, ReadEnded;
    StretchParts(states, actions);
    assert actions != [];
    StretchStep(states, actions);
    var rest, later := actions[1..], states[1..];
    StretchParts(later, rest);
    DoReading(states[0], actions[0], room, taken, published);
    if |actions| > 1 {
      assert forall j | 0 < j < |rest| :: later[j] == states[j + 1];
      ReadEnds(later, rest, room, taken, published);
    }
  }

  /** A read that returns has taken nothing only if the ring was empty when it began and its poll
      ended; otherwise it has taken from one item up to its room, and everything that waited when
      it began, up to its room. What it got continues the stream. */
  lemma ReadTakesWhatWaits(states: seq<State>, actions: seq<Action>, k: nat, m: nat, room: nat)
    requires Run(states, actions) && k < m <= |actions|
    requires states[k].reader.RIdle? && actions[k] == BeginRead(room) && room > 0
    requires states[m].reader.RIdle? && forall j | k < j < m :: !states[j].reader.RIdle?
    ensures states[k].taken <= states[k].published && states[k].taken <= states[m].taken
    ensures var waited, got := states[k].published - states[k].taken, states[m].taken - states[k].taken;
      && got <= room && (got >= waited || got == room)
      && (waited > 0 || PollEnds !in actions[k..m] ==> got > 0)
    ensures states[k].consumed <= states[m].consumed <= states[m].produced
    ensures |states[m].consumed| == states[m].taken * states[m].z
  {
    hide Inv, LocalsInRange, Do, Stretch, Step;
    RunHolds(states, actions, k);
    SizedOf(states[k]);
    RunStep(states, actions, k);
    StepIsDo(states[k], actions[k], states[k + 1]);
    BeginsReading(states[k], room, states[k + 1]);
    RunPart(states, actions, k + 1, m);
    var later, rest := states[k + 1..m + 1], actions[k + 1..m];
    assert later[0] == states[k + 1] && later[|rest|] == states[m];
    assert forall j | 0 < j < |rest| :: later[j] == states[k + 1 + j];
    assert forall a | a in rest :: a in actions[k..m];
    ReadEnds(later, rest, room, states[k].taken, states[k].published);
    ConsumedIsPrefix(states, actions, m);
    ConsumedGrows(states, actions, k, m);
  }

  lemma BeginsReading(s: State, room: nat, t: State)
    requires Inv(s) && LocalsInRange(s) && s.reader.RIdle? && room > 0 && t == Do(s, BeginRead(room))
    ensures Reading(t, room, s.taken, s.published)
  {
    hide Size, Index, CopyAddress, Stream, WakeOk, WriterOk;
  }

  lemma {:induction false} ConsumedGrows(states: seq<State>, actions: seq<Action>, k: nat, m: nat)
    requires Run(states, actions) && k <= m <= |actions|
    ensures states[k].consumed <= states[m].consumed
    decreases m
  {
    hide Inv, Do, Step, Initial, LocalsInRange;
    if k < m {
      ConsumedGrows(states, actions, k, m - 1);
      RunHolds(states, actions, m - 1);
      SizedOf(states[m - 1]);
      RunStep(states, actions, m - 1);
      StepIsDo(states[m - 1], actions[m - 1], states[m]);
      DoConsumes(states[m - 1], actions[m - 1]);
    }
  }

  lemma DoConsumes(s: State, a: Action)
    requires Sized(s) && LocalsInRange(s)
    ensures s.consumed <= Do(s, a).consumed
  {
    hide Size, CopyAddress;
  }
}

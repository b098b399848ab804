# Model of the RTSS mailbox and updater

The repository is the user-space side of a mailbox between a main processor and the RTSS
safety island: a library for ring buffers in shared memory (`middleware/safemlib`), a byte
interface over it (`middleware/mailbox`), and an updater that flashes images through it
(`apps/rtss-updater`). This project models its algorithms and protocols in Dafny and proves
what they promise. `dafny verify dfyconfig.toml` checks all of it.

## How it is laid out

- **Words, Arithmetic, Copy**: 32-bit and byte arithmetic on mathematical integers, with
  every possible wrap written as `W32`, and the word-wise copy loop over arrays.
- **Layout, Ring, RingBytes, Mailbox, Channels, Isolation, Interleaved, Creation, Cases**: one flat byte region. Offsets are
  those of the packed C structures (header 32 bytes and 8 per channel, descriptor 56 bytes).
  `Ring` says what the bytes of a channel mean as a queue and `RingBytes` where each lies; `Mailbox` and `Channels` hold the
  library's routines over a byte array; `Isolation` is about runs of calls on one channel and
  `Interleaved` on all of them; `Creation` writes the region and reads channel information
  back; `Cases` holds two concrete mailboxes.
- **Device, MailboxApi, Streams**: opening a channel by name and the calls that count bytes.
- **Protocol, Deliveries**: writer and reader as a state machine whose steps are single accesses to
  shared memory, the event counter included; `Deliveries` is about whole calls in its runs.
- **CrcBits, CrcWords, CrcTables, Crc, CrcCode, Message**: the two table-driven CRC-32
  routines, their common meaning as polynomial division, error detection, and the
  checksummed message.
- **Gpt, Partitions, Guid**: partition tables, what their bytes mean, and textual GUIDs (module `Guids`).
- **Handshake, OtaBuffer, Preboot, ConfigFile**: the updater's session protocols and its
  configuration parser.

Hardware and operating system appear as choices: the barriers make memory accesses
sequentially consistent steps; `poll`, `mmap`, interrupts and the peer's messages have any
outcome; storage is a function from address and size to the bytes read, so it answers equally
each time.

## Where the code differs from what one would expect

- The creation check can accept a channel whose contents do not fit its area, when the item
  bytes are within 55 of 2^32 (`Layout.WrapGuardMisses` is an input). `Layout.ContainedExactly`
  and `Creation.Create` have the exact condition.
- `LibMB_ChanMapInit` allows the last area to end at the mailbox size, creation does not
  (`Layout.MapAccepted`, with an input in `Layout.MapRefused`).
- `LibMB_ChanMapInit` reduces every position to 32 bits unchecked and can report success for
  items that do not fit at all (`Layout.MapVerdict`, with an input in `Layout.MapOverflows`);
  creation catches this (`Layout.MapAccepted`).
- A channel name that fills all 16 bytes is created, found and then refused when it is opened
  (`Device.NameFindsChannel`, with an input in `Cases.FullNameRefused`).
- A channel with item size 0 is created, and writes to it report success without effect
  (`Isolation.AcceptedItemsWait`, with an input in `Cases.EmptyItemLost`).
- A batch of 2 GiB or more reports a negative count and sends no interrupt
  (`MailboxApi.ReportedCount`, with an input in `Cases.LargeBatchIsNegative`); a read of as much
  takes the items and reports a negative count (`MailboxApi.ReportedRead`, with an input in
  `Cases.LargeReadIsNegative`).
- `rtss_gpt_calc_crc32` yields 0 for no bytes whatever the seed. Chaining therefore fails for an
  empty tail after a non-zero checksum, and for an empty front with a non-zero seed
  (`Crc.Chaining`, with inputs in `Crc.ChainingFails`).
- A handshake that fails after one matching answer locks the library
  (`Handshake.FailureLocksOut`, with a traffic in `Handshake.LockingTrafficLocks`).
- The comment above `rtss_upd_hello_ping` says that a mismatched response resets the channel
  before resending; the code resets nothing and waits for another answer
  (`Handshake.Library.HelloPing`).
- The receive handler keeps the old status when no message arrives and takes the new one
  before it checks the checksum (`Preboot.Updater.Notify`), so a step of the sequence can pass
  on an earlier reply or on none. `Preboot.PassesUnanswered` says exactly when;
  as the status left over is always 0, silence after a sent command never stops a run
  (`Preboot.SilentStep`), and `Preboot.MuteRunCompletes` gives one; what `Preboot.Updater.PrebootSequence` guarantees
  before a write does not rest on it.
- The comments on boot information (`rtss_update_lib.h:286-296`) rule out an update unless an
  image booted from partition A by the primary table. The code also lets partition value 2 pass
  and does not look at the table (`Preboot.NoneFromB`).
- The documentation allows paths of 128 bytes; such a path is accepted and stored without a
  terminating NUL (`ConfigFile.StoredPathEnds`, with a file in `ConfigFile.LongPathMisread`).
- A lookup reports start and size modulo 2^32 (`Partitions.EntryRange`, `Partitions.CoversExactly`): a
  partition of a multiple of 4 GiB is not found (`Partitions.LargeEntryHidden`).
- `LibMB_Create` documents a corrupt-mailbox result that it never returns (`Creation.Create`).
- A failing `rtss_gpt_partition_init` does not undo an earlier success: the module stays
  initialised (`Gpt.Session.Init`).

## Model

| member | source | states |
|---|---|---|
| `Copy.CopyBytes` | middleware/safemlib/src/rtss_mailbox_lib.c:98-141 | For every length and every alignment of the two pointers the word phase, word tail, byte phase and byte tail together replace exactly the destination bytes by the source bytes, in order, and nothing else; a NULL source or destination changes nothing |
| `Layout.BoundaryCheck` | middleware/safemlib/src/rtss_mailbox_lib.c:210-268 | The check, with its 32-bit products and sums, accepts exactly the configurations the predicate Accepted describes |
| `Layout.TableSizeExact` | middleware/safemlib/src/rtss_mailbox_lib.c:241-243 | The rounded header size is 40 bytes plus 8 for each channel after the first |
| `Layout.ProductGuardExact` | middleware/safemlib/src/rtss_mailbox_lib.c:224-228 | The divide-back guard refuses exactly the products that wrap 32 bits |
| `Layout.ContainedExactly` | middleware/safemlib/src/rtss_mailbox_lib.c:224-230 | An accepted channel holds its header and all items in its area if and only if item bytes + 55 fit 32 bits |
| `Layout.WrapGuardMisses` | middleware/safemlib/src/rtss_mailbox_lib.c:210-268 | A mailbox of 99 bytes with 65537 items of 65535 bytes in a 55-byte area is accepted: the sum after the guard can wrap |
| `Layout.AcceptedIffGeometry` | middleware/safemlib/src/rtss_mailbox_lib.c:210-268 | When no channel exceeds that bound, acceptance is the same as: table and areas ordered, disjoint, inside the mailbox, each holding its contents, item counts permitted |
| `Layout.ChanMapInit` | middleware/safemlib/src/rtss_mailbox_lib.c:412-449 | The loop assigns every channel the planned start and end, reduced to 32 bits, and fails exactly when the last end exceeds the mailbox size or there are too many channels |
| `Layout.MapIsTight` | middleware/safemlib/src/rtss_mailbox_lib.c:412-449 | A map within 32 bits: the first area starts four bytes behind the table, each is as long as descriptor and items, the next follows at once |
| `Layout.MapVerdict` | middleware/safemlib/src/rtss_mailbox_lib.c:438-440 | The map function's verdict on the size is right if and only if no position overflowed 32 bits or it refuses |
| `Layout.MapOverflows` | middleware/safemlib/src/rtss_mailbox_lib.c:412-449 | 0x10000 items of 0x10000 bytes: the map finds no fault in 100 bytes, creation refuses |
| `Layout.MapAccepted` | middleware/safemlib/src/rtss_mailbox_lib.c:412-449 | A laid-out map is accepted by the creation check with every channel within the bound if and only if the unreduced last end is strictly below the mailbox size and counts are permitted: every overflow is caught, and creation is one byte stricter than the map function |
| `Layout.MapRefused` | middleware/safemlib/src/rtss_mailbox_lib.c:438-440 | One item of four bytes: 103 bytes are enough for the map and not for creation, 104 for both |
| `Ring.AdvanceIsModulo` | middleware/safemlib/src/rtss_mailbox_lib.c:315-315 | The published index is the old one plus the item count, modulo the number of slots |
| `Ring.PushAppends` | middleware/safemlib/src/rtss_mailbox_lib.c:280-316 | Writing k items appends exactly their bytes to the queue, wrapped or not, moves only the write index and keeps the header |
| `Ring.PopTakes` | middleware/safemlib/src/rtss_mailbox_lib.c:328-364 | Reading k items hands out exactly the front of the queue, leaves the rest, moves only the read index |
| `Ring.EmptiedIsEmpty` | middleware/safemlib/src/rtss_mailbox_lib.c:759-763 | After a reset the ring is empty with all but one slot free |
| `Ring.QueueLength` | middleware/safemlib/src/rtss_mailbox_lib.c:45-57 | The number of queued bytes is the valid item count times the item size |
| `Ring.FreeItems` | middleware/safemlib/src/rtss_mailbox_lib.c:67-86 | The two branches of the free count complement the two of the valid count: together they are always the slots less one |
| `RingBytes.PushedByte` | middleware/safemlib/src/rtss_mailbox_lib.c:280-316 | Every byte of the region after a write of k items: the data from the write index on, modulo the ring, and the index at offset 48 advanced modulo the slots; every other byte as before |
| `RingBytes.TakenByte` | middleware/safemlib/src/rtss_mailbox_lib.c:328-364 | Byte b of a read is the byte of the ring b behind the read index at offset 52, modulo the ring |
| `RingBytes.PoppedByte` | middleware/safemlib/src/rtss_mailbox_lib.c:328-364 | A read changes the index at offset 52 alone, advanced modulo the slots |
| `Mailbox.SanityCheck` | middleware/safemlib/src/rtss_mailbox_lib.c:377-396 | True exactly when counts and sizes are in bounds and both indices are below the slot count |
| `Mailbox.ValidItem` | middleware/safemlib/src/rtss_mailbox_lib.c:45-57 | The 32-bit difference is the number of valid items; no step wraps |
| `Mailbox.FreeItem` | middleware/safemlib/src/rtss_mailbox_lib.c:67-86 | The 32-bit difference less one is the number of free items; no step wraps |
| `Mailbox.WriteItem` | middleware/safemlib/src/rtss_mailbox_lib.c:280-316 | The one or two copies and the index store leave exactly the appended ring, although products and sums are taken in 32 bits |
| `Mailbox.ReadItem` | middleware/safemlib/src/rtss_mailbox_lib.c:328-364 | The one or two copies and the index store deliver the front of the queue into the buffer and leave exactly the popped ring |
| `Channels.Validate` | middleware/safemlib/src/rtss_mailbox_lib.c:497-508 | NULL and wrong-magic errors, else success |
| `Channels.GetValidItemNum` | middleware/safemlib/src/rtss_mailbox_lib.c:659-681 | The valid count, or the first failing check's error code |
| `Channels.GetFreeItemNum` | middleware/safemlib/src/rtss_mailbox_lib.c:622-644 | The free count, or the first failing check's error code |
| `Channels.Write` | middleware/safemlib/src/rtss_mailbox_lib.c:530-557 | Appends all k items and returns k, or returns an error and changes nothing; an error exactly when a check fails or k exceeds the free items |
| `Channels.Read` | middleware/safemlib/src/rtss_mailbox_lib.c:577-606 | Takes the smaller of the request and the valid items; any error leaves mailbox and buffer alone |
| `Channels.ChanReset` | middleware/safemlib/src/rtss_mailbox_lib.c:746-775 | Zeroes both indices, or returns the check's error and changes nothing |
| `Isolation.RunStaysInside` | middleware/safemlib/src/rtss_mailbox_lib.c:530-606 | Any run of writes, reads and resets on one channel changes at most its two indices and its item bytes |
| `Isolation.ChannelsAreIsolated` | middleware/safemlib/src/rtss_mailbox_lib.c:530-606 | After any such run the header table and every other channel are byte for byte unchanged and the mailbox is well formed |
| `Isolation.RunConserves` | middleware/safemlib/src/rtss_mailbox_lib.c:530-606 | Over any run of writes and reads, bytes handed out followed by bytes waiting equal bytes waiting at the start followed by bytes accepted |
| `Isolation.AcceptedItemsWait` | middleware/safemlib/src/rtss_mailbox_lib.c:291-293 | An accepted write makes its k items valid if and only if k is 0 or the item size is positive: with item size 0 the call reports success and stores nothing |
| `Isolation.RepliesThroughQueue` | middleware/safemlib/src/rtss_mailbox_lib.c:530-681 | On a usable channel, through its queue of bytes: the valid and free counts; a write of k items is taken if and only if waiting bytes and k items fit all slots but one, else -55; a read gives the smaller of k and what waits |
| `Isolation.GuardNumbers` | middleware/safemlib/src/rtss_mailbox_lib.c:377-396 | The checks before each operation, by byte offset and number: magic -44, index -33, count and size limits and indices -66 |
| `Cases.EmptyItemLost` | middleware/safemlib/src/rtss_mailbox_lib.c:291-293 | In the created mailbox of two items of size 0, a write of one item reports one and changes no byte |
| `Interleaved.OwnCallsDecide` | middleware/safemlib/src/rtss_mailbox_lib.c:530-775 | Over any list of calls on any channels, each channel ends with the area, and its callers get the replies, that its own calls alone lead to |
| `Interleaved.ChannelsInterleave` | middleware/safemlib/src/rtss_mailbox_lib.c:530-775 | In particular the queue of each channel is that of its own calls alone |
| `Creation.InitMailbox` | middleware/safemlib/src/rtss_mailbox_lib.c:156-192 | Header and table hold the configuration, every descriptor does if they lie apart, and all other bytes stay |
| `Creation.Create` | middleware/safemlib/src/rtss_mailbox_lib.c:466-484 | Accepted configurations get header, table and descriptors and nothing else changes; the result is a well-formed mailbox with exactly those channels if and only if the item bytes + 55 of each are below 2^32; refused ones change nothing; the corrupt code is never returned |
| `Creation.MappingSuffices` | middleware/safemlib/src/rtss_mailbox_lib.c:466-484 | Under that bound a mapping of mb_size bytes holds all that is written |
| `Cases.FreshIsCreated` | middleware/safemlib/src/rtss_mailbox_lib.c:156-192 | The bytes of a created one-channel mailbox, for every accepted configuration under the bound |
| `Creation.GetChanInfo` | middleware/safemlib/src/rtss_mailbox_lib.c:696-734 | Fills each field of the caller's structure from its bytes of the descriptor, with mode 1 for a channel that the creator has as 0 and mode 0 for any other, or returns the error and leaves the structure alone |
| `Creation.CreatedChannelAnswers` | middleware/safemlib/src/rtss_mailbox_lib.c:696-734 | After creation channel i answers with the name, owners, priority, count and size of configuration i, mode 1 if the configured mode is 0 and mode 0 otherwise; it is reported corrupt exactly when it has no slots or its item size is over the limit |
| `Creation.CreatedWords` | middleware/safemlib/src/rtss_mailbox_lib.c:156-192 | Where each value of the configuration ends up: heading words at 16 to 28, table words at 32 and 36 plus 8 for each channel, descriptor words at 16 to 52 of each channel's area |
| `Creation.AnswersKept` | middleware/safemlib/src/rtss_mailbox_lib.c:696-775 | No run of calls on whichever channels changes what any channel answers, error codes included |
| `Device.GetDevCtx` | middleware/mailbox/src/rtss_mailbox.c:30-75 | Finds the first channel of that name, stopping at the first unreadable one; a name of 16 or more characters is refused |
| `Device.AttachedWhenOpened` | middleware/mailbox/src/rtss_mailbox.c:57-67 | A handle filled this way carries its channel's item size, which the byte calls rely on |
| `Device.OpenedHandle` | middleware/mailbox/src/rtss_mailbox.c:57-67 | On a fresh mailbox each field of the handle is that of its channel's configuration: sender, receiver as client, protocol, signal, priority and item size as they are, mode 1 for mode 0 and 0 for any other |
| `Device.UnknownName` | middleware/mailbox/src/rtss_mailbox.c:44-75 | A name that no readable channel has gives -2 |
| `Device.NameFindsChannel` | middleware/mailbox/src/rtss_mailbox.c:44-70 | In a fresh mailbox with distinct names, opening a configured name reaches that configuration's channel if and only if it and all before it can be read and the name has fewer than 16 characters; the error code otherwise |
| `Cases.FullNameRefused` | middleware/mailbox/src/rtss_mailbox.c:52-59 | A created channel whose name has 16 characters cannot be opened by it |
| `MailboxApi.WriteBatch` | middleware/mailbox/src/rtss_mailbox.c:257-326 | The reply and the region after the call for every argument and ring state: each refusal with its number; behind the handle checks, a batch goes with its whole items behind what waits if and only if waiting and new bytes fit all slots but one, and is otherwise refused with -105; no refusal changes a byte |
| `MailboxApi.TakenExactly` | middleware/mailbox/src/rtss_mailbox.c:298-325 | For a handle that passes its checks on a usable channel a batch of sz bytes is taken if and only if the waiting bytes + sz are at most (slots - 1) * item size; otherwise the reply is -105 |
| `MailboxApi.FitsExactly` | middleware/mailbox/src/rtss_mailbox.c:298-309 | The check on free items is that comparison of the queue with the slots |
| `MailboxApi.ModeDecides` | middleware/mailbox/src/rtss_mailbox.c:286-290 | On a handle opened in a created mailbox writes pass the handle checks if and only if the configured mode is 0, reads if and only if it is not; the other call is refused with -1 |
| `MailboxApi.Write` | middleware/mailbox/src/rtss_mailbox.c:328-345 | A batch, then the interrupt exactly when the reported count is positive; a failed interrupt leaves the items in the ring |
| `MailboxApi.ReportedCount` | middleware/mailbox/src/rtss_mailbox.c:323-325 | The count reported is the number of bytes taken if and only if it is below 2^31; otherwise it is negative and no interrupt is sent |
| `Cases.LargeBatchIsNegative` | middleware/mailbox/src/rtss_mailbox.c:323-325 | A fresh channel of 300 items of 8 MiB takes a batch of 2^31 bytes and reports -2^31 |
| `MailboxApi.ReadTimed` | middleware/mailbox/src/rtss_mailbox.c:347-462 | Checks before each wait; each refusal with its number, and the reply, region and buffer for every outcome of the polls, with the writer adding batches in between |
| `MailboxApi.WaitInVain` | middleware/mailbox/src/rtss_mailbox.c:397-443 | On an empty ring a time-out gives -110, a signal -4, a hang-up -104, a failed call its errno; a wake-up that brings nothing leaves the decision to the next poll |
| `MailboxApi.ReportedRead` | middleware/mailbox/src/rtss_mailbox.c:461-461 | The count a read reports is the number of bytes taken if and only if it is below 2^31; otherwise it is negative, the bytes being taken all the same |
| `Cases.LargeReadIsNegative` | middleware/mailbox/src/rtss_mailbox.c:461-461 | Reading back that batch of 2^31 bytes takes 256 items and reports -2^31 |
| `MailboxApi.ReadsAllThatFits` | middleware/mailbox/src/rtss_mailbox.c:447-452 | A read takes the largest number of waiting items that fits the buffer |
| `Streams.DeliveredIsPrefix` | middleware/mailbox/src/rtss_mailbox.c:257-462 | Over any run of byte-level calls from an empty ring, the bytes delivered are a prefix of the bytes written, and the rest is what waits |
| `Streams.CallCarries` | middleware/mailbox/src/rtss_mailbox.c:298-325 | One call: delivered bytes and then-waiting bytes are the formerly waiting bytes and the bytes it wrote |
| `Streams.ReadsWholeItems` | middleware/mailbox/src/rtss_mailbox.c:447-461 | A successful read delivers at least one item, whole items only, at most the buffer size, and leaves an item only for lack of room |
| `Protocol.AddressOfPosition` | middleware/safemlib/src/rtss_mailbox_lib.c:299-313 | The two-piece copy visits the ring addresses of consecutive stream positions |
| `Protocol.StepHolds` | middleware/safemlib/src/rtss_mailbox_lib.c:280-364 | Every single step of either side keeps the protocol invariant |
| `Protocol.RunHolds` | middleware/safemlib/src/rtss_mailbox_lib.c:280-364 | Every state of every run keeps the invariant, and no access leaves the ring |
| `Protocol.ConsumedIsPrefix` | middleware/safemlib/src/rtss_mailbox_lib.c:280-364 | In every interleaving the bytes consumed are a prefix of the bytes published and at most n - 1 items lie between; which bytes are published is the next three rows' subject |
| `Deliveries.WritePublishesItsData` | middleware/mailbox/src/rtss_mailbox.c:257-326 | In every run, from the start of a write of data to its end, the published bytes grow by the whole items of data or by nothing, and surely by them if data fits what is free at the start |
| `Deliveries.WriteCompletes` | middleware/mailbox/src/rtss_mailbox.c:257-326 | A write is over within six of the writer's steps and one for each byte of its whole items, whatever the reader does |
| `Deliveries.ReadTakesWhatWaits` | middleware/mailbox/src/rtss_mailbox.c:347-462 | In every run a read that returns has taken everything that waited at its start, or as much as it has room for; nothing only when the ring was empty then and its poll ended |
| `Protocol.CopiesDisjoint` | middleware/safemlib/src/rtss_mailbox_lib.c:280-364 | Bytes being written and bytes being read are different bytes |
| `Protocol.SnapshotsUnderestimate` | middleware/safemlib/src/rtss_mailbox_lib.c:45-86 | A loaded peer index only understates the items or the room |
| `Protocol.SecondChecksPass` | middleware/mailbox/src/rtss_mailbox.c:298-325 | After the first room or item check, the library's own check never refuses a write and never shortens a read |
| `Protocol.QueueIsInFlight` | middleware/safemlib/src/rtss_mailbox_lib.c:530-606 | The queue of the sequential description equals what is published and not consumed, even in mid-copy |
| `Protocol.EveryRunIsSafe` | middleware/safemlib/src/rtss_mailbox_lib.c:12-86 | The three facts above for every state of every run |
| `Protocol.NoLostWakeup` | middleware/mailbox/src/rtss_mailbox.c:397-443 | A reader in poll with counter zero and items in the ring: the writer is between publishing and its trigger, or that trigger was deferred or failed |
| `Protocol.GoingReaderDelivers` | middleware/mailbox/src/rtss_mailbox.c:393-461 | A reader that is going takes an item within a fixed number of its own steps, in every interleaving with the writer, triggers and spurious wake-ups |
| `Protocol.TriggerReleases` | middleware/mailbox/src/rtss_mailbox.c:236-255 | From any state with a sleeping reader and items one trigger suffices, whatever happens afterwards, for the reader to take an item within the ring's size plus eight of its steps |
| `CrcTables.LsbEntry` | apps/rtss-updater/lib/rtss_gpt/src/rtss_guidpt.c:24-68 | Each of the 256 entries is the index shifted through the reflected polynomial eight times |
| `CrcTables.MsbEntry` | apps/rtss-updater/lib/rtss_update/src/rtss_update_lib.c:82-115 | Each of the 256 entries is the bit reversal of the other table's entry at the reversed index |
| `CrcCode.Reflect8` | apps/rtss-updater/lib/rtss_update/src/rtss_update_lib.c:524-534 | The loop reverses eight bits |
| `CrcCode.Reflect32` | apps/rtss-updater/lib/rtss_update/src/rtss_update_lib.c:536-546 | The loop reverses 32 bits |
| `CrcCode.Generate` | apps/rtss-updater/lib/rtss_update/src/rtss_update_lib.c:553-577 | Computes the checksum of the bytes as they were on entry and stores it anywhere, inside those bytes included; the refused arguments store nothing |
| `CrcCode.Verify` | apps/rtss-updater/lib/rtss_update/src/rtss_update_lib.c:579-590 | Success exactly when the checksum equals the expected one |
| `CrcCode.CalcCrc32` | apps/rtss-updater/lib/rtss_gpt/src/rtss_guidpt.c:85-99 | The seeded checksum of the bytes; 0 for NULL or no bytes |
| `Crc.GeneratorsAgree` | apps/rtss-updater/lib/rtss_update/src/rtss_update_lib.c:553-577 | For every non-empty byte string both implementations give one checksum |
| `Crc.CrcIsFrameCheck` | apps/rtss-updater/lib/rtss_gpt/src/rtss_guidpt.c:85-99 | That checksum is the complemented remainder of dividing by the generator polynomial of IEEE 802.3 clause 3.2.9 |
| `CrcBits.RunIsRemainder` | apps/rtss-updater/lib/rtss_update/src/rtss_update_lib.c:566-574 | The shift register computes the remainder of polynomial division |
| `Crc.BurstErrorDetected` | apps/rtss-updater/lib/rtss_update/src/rtss_update_lib.c:579-590 | Two messages of any length that differ within 32 consecutive bits have different checksums |
| `Crc.WindowErrorDetected` | apps/rtss-updater/lib/rtss_update/src/rtss_update_lib.c:579-590 | So do two that differ within four consecutive bytes |
| `Crc.SeedsDistinguish` | apps/rtss-updater/lib/rtss_gpt/src/rtss_guidpt.c:85-99 | Over the same non-empty bytes different seeds give different checksums |
| `Crc.Chaining` | apps/rtss-updater/lib/rtss_gpt/src/rtss_guidpt.c:85-99 | A checksum seeded with that of the front is the checksum of the whole: for a non-empty tail if and only if the front is non-empty or the seed is 0, for an empty tail if and only if the front's checksum is 0 |
| `Crc.ChainingFails` | apps/rtss-updater/lib/rtss_gpt/src/rtss_guidpt.c:85-99 | Both failures at one byte: an empty tail after a zero byte, an empty front with seed 0xFFFFFFFF |
| `Message.Seal` | apps/rtss-updater/demo/src/rtss_updater_cmd.c:690-694 | The checksum of the message with its field zero ends up in the field, although output and input overlap |
| `Message.Check` | apps/rtss-updater/demo/src/rtss_updater.c:1637-1644 | The receiver accepts exactly the messages whose field is the checksum of the rest |
| `Message.SealedIsIntact` | apps/rtss-updater/demo/src/rtss_updater_cmd.c:690-694 | Every packed message passes the receiver's check and keeps its body |
| `Message.TamperedBodyRejected` | apps/rtss-updater/demo/src/rtss_updater.c:1637-1644 | A packed message changed within four consecutive body bytes is refused |
| `Message.TamperedChecksumRejected` | apps/rtss-updater/demo/src/rtss_updater.c:1637-1644 | A packed message with another checksum is refused |
| `Gpt.VerifyHeaderCrc32` | apps/rtss-updater/lib/rtss_gpt/src/rtss_guidpt.c:149-162 | True exactly when the size is at most 92 and the checksum over that many bytes matches; the header is unchanged on every path |
| `Gpt.VerifyEntriesCrc32` | apps/rtss-updater/lib/rtss_gpt/src/rtss_guidpt.c:111-140 | Checking entry by entry accepts exactly when every entry is read in full and the checksum of the whole array matches |
| `Gpt.ArrayCrcIsCrc` | apps/rtss-updater/lib/rtss_gpt/src/rtss_guidpt.c:126-139 | The running checksum equals the checksum function on the whole array, unless the array is empty and the seed is not 0 |
| `Gpt.BasesAgree` | apps/rtss-updater/lib/rtss_gpt/src/rtss_guidpt.c:119-119 | The base used to verify and the base used to look up are the same address |
| `Gpt.LookupReadsVerifiedEntries` | apps/rtss-updater/lib/rtss_gpt/src/rtss_guidpt.c:546-579 | With verified entries of at least 48 bytes a lookup answers from the very bytes whose checksum matched |
| `Gpt.FirstMatchIsFirst` | apps/rtss-updater/lib/rtss_gpt/src/rtss_guidpt.c:566-577 | The entry that decides is the first one with the type GUID |
| `Gpt.DamagedEntriesRejected` | apps/rtss-updater/lib/rtss_gpt/src/rtss_guidpt.c:111-140 | Storage whose entries differ within four consecutive bytes does not verify |
| `Gpt.ReadSizeCovers` | apps/rtss-updater/lib/rtss_gpt/src/rtss_guidpt.c:450-452 | The read size is the least multiple of the alignment that covers the 92 bytes of the header |
| `Gpt.Session.Try` | apps/rtss-updater/lib/rtss_gpt/src/rtss_guidpt.c:382-416 | Succeeds exactly on a full read of a header with signature and both checksums right, which it caches |
| `Gpt.Session.Init` | apps/rtss-updater/lib/rtss_gpt/src/rtss_guidpt.c:430-478 | Primary table, else secondary, else a cleared header; the chosen table identifier and cached header for every storage, buffer size and alignment, on a fresh and on an initialised module |
| `Gpt.Session.Deinit` | apps/rtss-updater/lib/rtss_gpt/src/rtss_guidpt.c:515-523 | Forgets header, storage and buffer |
| `Gpt.Session.GetPartitionInfo` | apps/rtss-updater/lib/rtss_gpt/src/rtss_guidpt.c:546-579 | The answer of the scan over the storage, stale bytes behind short entries included; what it is for an entry's bytes say the rows Partitions.LookupFindsRange to Partitions.LargeEntryHidden |
| `Gpt.ReadySessionAnswers` | apps/rtss-updater/lib/rtss_gpt/src/rtss_guidpt.c:546-579 | After a successful init, lookups answer from the checksummed array |
| `Partitions.LookupFindsRange` | apps/rtss-updater/lib/rtss_gpt/src/rtss_guidpt.c:546-579 | A lookup in a ready session finds nothing if there is no entry of the type, and otherwise the place of the first one; for a range below 4 GiB it is a place if and only if first <= last by the bytes at 32 and 40, and then a block belongs to the entry if and only if its first byte lies in the place |
| `Partitions.EntryCovers` | apps/rtss-updater/lib/rtss_gpt/src/rtss_guidpt.c:218-251 | The same for any entry |
| `Partitions.EntryRange` | apps/rtss-updater/lib/rtss_gpt/src/rtss_guidpt.c:571-575 | For every entry in 32 bits: not found if and only if the range ends before it starts or its number of blocks is a multiple of 2^20; else start and size modulo 2^32 |
| `Partitions.CoversExactly` | apps/rtss-updater/lib/rtss_gpt/src/rtss_guidpt.c:571-575 | A reported place covers exactly the entry's blocks if and only if the first block and the number of blocks are below 2^20 |
| `Partitions.LargeEntryHidden` | apps/rtss-updater/lib/rtss_gpt/src/rtss_guidpt.c:571-575 | An entry of 2^20 blocks from block 0 on is reported as not found |
| `Partitions.HeaderFields` | apps/rtss-updater/lib/rtss_gpt/src/rtss_guidpt.c:382-416 | Each header field that is used is the little-endian number at its offset |
| `Partitions.TypeField` | apps/rtss-updater/lib/rtss_gpt/src/rtss_guidpt.c:546-579 | The type compared is three little-endian numbers and eight bytes at the front of the entry |
| `Partitions.ArrayOnDisk` | apps/rtss-updater/lib/rtss_gpt/src/rtss_guidpt.c:111-140 | On a disk whose entries end below 4 GiB, the array whose checksum is verified is the bytes of the disk from its first entry block on, as many as entries times entry size |
| `Partitions.HeaderBytesChecked` | apps/rtss-updater/lib/rtss_gpt/src/rtss_guidpt.c:149-162 | The header's checksum is that of its bytes up to its size with bytes 16 to 19 zero |
| `Partitions.DamagedHeaderRejected` | apps/rtss-updater/lib/rtss_gpt/src/rtss_guidpt.c:149-162 | A change within four consecutive bytes of the checked header, off the checksum and leaving the size, is refused |
| `Partitions.WrongChecksumRejected` | apps/rtss-updater/lib/rtss_gpt/src/rtss_guidpt.c:149-162 | So is any other checksum |
| `Gpt.ModifyGpt` | apps/rtss-updater/demo/src/rtss_updater_cmd.c:949-970 | Writes the device's alternate and last usable blocks and a new checksum into the table file |
| `Gpt.RewrittenVerifies` | apps/rtss-updater/demo/src/rtss_updater_cmd.c:949-970 | The rewritten header passes the library's check if and only if it claims at most 92 bytes |
| `Gpt.RewrittenElsewhere` | apps/rtss-updater/demo/src/rtss_updater_cmd.c:949-970 | The two fields are the device's, and everything but them and the checksum stays |
| `Guids.Hex2Dec` | apps/rtss-updater/lib/rtss_gpt/src/rtss_guidpt.c:309-328 | Up to eight digits denote their number without losing a bit |
| `Guids.DigitValues` | apps/rtss-updater/lib/rtss_gpt/src/rtss_guidpt.c:294-328 | The hex digits are 0-9, a-f and A-F with their values, and nothing else |
| `Guids.DecodeGuidString` | apps/rtss-updater/lib/rtss_gpt/src/rtss_guidpt.c:337-372 | Accepts exactly 36 characters with a hex digit everywhere or a dash in a dash place, and stores every field untruncated |
| `Guids.DecodesGroups` | apps/rtss-updater/lib/rtss_gpt/src/rtss_guidpt.c:361-371 | Five groups of hex digits with dashes between decode to the numbers they denote, the last two groups byte by byte |
| `Guids.ExampleDecodes` | apps/rtss-updater/lib/rtss_gpt/src/rtss_guidpt.c:331-372 | 8701faa8-baa0-43cf-9c90-3b30495c558e decodes to its 16 bytes' fields |
| `Guids.CanonicalRoundTrip` | apps/rtss-updater/lib/rtss_gpt/src/rtss_guidpt.c:337-372 | A canonical text decodes to a GUID if and only if it is that GUID's text up to letter case |
| `Guids.DecodeDistinguishes` | apps/rtss-updater/lib/rtss_gpt/src/rtss_guidpt.c:337-372 | Two accepted texts give one GUID exactly when they agree up to case outside the dash places |
| `Guids.DashesAreOptional` | apps/rtss-updater/lib/rtss_gpt/src/rtss_guidpt.c:354-364 | With hex digits in the dash places the text is accepted and means the same GUID |
| `Handshake.Pack` | apps/rtss-updater/lib/rtss_update/src/rtss_update_lib.c:314-342 | The sealed HELLO message |
| `Handshake.PingBytes` | apps/rtss-updater/lib/rtss_update/src/rtss_update_lib.c:314-342 | The ping on the wire behind its checksum: words 72, 0, 0, 0, the text HELLO, version 1, and zeros |
| `Handshake.AnswerBytes` | apps/rtss-updater/lib/rtss_update/src/rtss_update_lib.c:282-294 | The answer that matches is the ping with byte 12 set to 1, whatever its checksum |
| `Handshake.Library.VerifyHandshake` | apps/rtss-updater/lib/rtss_update/src/rtss_update_lib.c:282-312 | True exactly for the expected answer in a known mode, which then sets state and mode; the answer's checksum is not looked at |
| `Handshake.Library.HelloPing` | apps/rtss-updater/lib/rtss_update/src/rtss_update_lib.c:360-431 | Returns for every peer after at most 33 sends: true after three clean pings in a row at the end, false after eleven failures; what follows what: an answer or silence after each ping, both channels reset at once after a failed send, the receiving one after silence, a ping after resets and after a right reply, and after a wrong one neither ping nor reset but the next reply |
| `Handshake.Library.IsReady` | apps/rtss-updater/lib/rtss_update/src/rtss_update_lib.c:433-452 | Refuses without traffic unless the library is in its initial state, and otherwise leaves the state its traffic leads to |
| `Handshake.Library.AskRepeatedly` | apps/rtss-updater/lib/rtss_update/src/rtss_update_lib.c:433-452 | A client that asks again and again: the calls follow one another, at most one answer is yes, and nothing is sent after a no with a matching reply |
| `Handshake.AtMostOneReady` | apps/rtss-updater/lib/rtss_update/src/rtss_update_lib.c:433-452 | Over any sequence of calls as IsReady makes them at most one returns true |
| `Handshake.FailureLocksOut` | apps/rtss-updater/lib/rtss_update/src/rtss_update_lib.c:297-305 | A failed call shuts out all later ones if and only if one of its answers matched |
| `Handshake.LockingTrafficLocks` | apps/rtss-updater/lib/rtss_update/src/rtss_update_lib.c:297-305 | One answered ping and eleven that cannot be sent: the call fails and the library stays ready |
| `OtaBuffer.Ota.Get` | apps/rtss-updater/lib/rtss_update/src/rtss_update_lib.c:213-241 | Maps on first use, counts afterwards, reports failure exactly when nothing is mapped |
| `OtaBuffer.Ota.Release` | apps/rtss-updater/lib/rtss_update/src/rtss_update_lib.c:243-280 | Counts down, and hands out the address to unmap exactly when the count reaches 0 |
| `OtaBuffer.StepHolds` | apps/rtss-updater/lib/rtss_update/src/rtss_update_lib.c:213-280 | Every step of any client keeps the invariant |
| `OtaBuffer.HoldersKeepTheirMapping` | apps/rtss-updater/lib/rtss_update/src/rtss_update_lib.c:213-280 | In every interleaving the count is the number of holders, the base is set exactly then, and each holder's mapping is still mapped where it was given |
| `OtaBuffer.UnmapsItsOwn` | apps/rtss-updater/lib/rtss_update/src/rtss_update_lib.c:275-277 | Each unmap outside the lock removes the mapping its client detached, once, while no client holds it |
| `OtaBuffer.AllReturned` | apps/rtss-updater/lib/rtss_update/src/rtss_update_lib.c:243-280 | When no client is active nothing is mapped and every mapping has been unmapped exactly once |
| `OtaBuffer.ReleaseSucceeds` | apps/rtss-updater/lib/rtss_update/src/rtss_update_lib.c:257-262 | A holder's release never meets a zero count |
| `Preboot.Updater.Notify` | apps/rtss-updater/demo/src/rtss_updater.c:1623-1882 | Status and identifier come from any received message, before its checksum is checked; all other fields only from one whose checksum is right |
| `Preboot.Updater.GetPartitionStatus` | apps/rtss-updater/demo/src/rtss_updater.c:46-72 | Counts the entries, fails on an unknown partition, and finds no failure exactly when no image booted from B |
| `Preboot.Updater.ValidateBootInfo` | apps/rtss-updater/demo/src/rtss_updater.c:77-111 | True exactly when all four flags are 1, no image failed and all passed |
| `Preboot.Updater.CopyAndValidate` | apps/rtss-updater/demo/src/rtss_updater.c:589-616 | Succeeds exactly when the last verified boot information and the copied entries approve the update |
| `Preboot.Updater.Exchange` | apps/rtss-updater/demo/src/rtss_updater.c:495-512 | Sends the next command of the script; goes on if and only if it was sent and the status of the last received message, or 0 before the first, is 0 |
| `Preboot.Updater.AskAll` | apps/rtss-updater/demo/src/rtss_updater.c:492-583 | The four questions in their order; stops at the first thing that stands in the way, and only there |
| `Preboot.Updater.FlashAll` | apps/rtss-updater/demo/src/rtss_updater.c:617-673 | Each configured image in order, to partition B of the primary table: the names in the flash commands are a prefix of the configured ones, and all of them at the end; stops at the first thing that stands in the way, and only there |
| `Preboot.Updater.PrebootSequence` | apps/rtss-updater/demo/src/rtss_updater.c:479-726 | Whatever the peer does: nothing is flashed or updated before approval; success means every command was sent with nothing in the way, each image flashed once and in order, then the reboot unless skipped; failure means the run ended at the first thing in the way: a local step, an unsent command, a non-zero status, or no approval; in both cases each command stands in its place and each event is of the kind that belongs there |
| `Preboot.CompletedCommands` | apps/rtss-updater/demo/src/rtss_updater.c:479-726 | The commands of a completed run: CheckGpt, the two metadata questions, the boot information, each configured image once in order (table 0, partition 1, flash type 2), one table update; all sent |
| `Preboot.EndedCommands` | apps/rtss-updater/demo/src/rtss_updater.c:479-726 | The commands of a run that ended: the same ones as far as it got, the flashed names a prefix of the configured ones |
| `Preboot.WritesAreEarned` | apps/rtss-updater/demo/src/rtss_updater.c:589-616 | Each flash and table update comes after a boot information message with the right checksum and four flags of 1 and after a copy of at least one image, none booted from B |
| `Preboot.ReplyFields` | apps/rtss-updater/demo/src/rtss_updater.c:1623-1882 | Which words of a message with the right checksum are the image count (at 20 for id 6, at 44 for id 11), the metadata size (at 20 for id 19) and the flags (at 20, 24, 32, 36) |
| `Preboot.PassesUnanswered` | apps/rtss-updater/demo/src/rtss_updater.c:1629-1644 | A step passes without a fresh and sound answer if and only if nothing came and the status left over is 0, or a message with a wrong checksum came whose status field is 0 |
| `Preboot.UnderwayStatus` | apps/rtss-updater/demo/src/rtss_updater.c:1629-1644 | While a run is under way the status left over is 0 |
| `Preboot.SilentStep` | apps/rtss-updater/demo/src/rtss_updater.c:1629-1644 | Silence after a sent command therefore never stops a run |
| `Preboot.MuteRunCompletes` | apps/rtss-updater/demo/src/rtss_updater.c:479-726 | A complete update in which one message is received: the flash and the table update pass on silence |
| `ConfigFile.ImageConfig.Read` | apps/rtss-updater/demo/src/rtss_updater_cmd.c:351-494 | The line loop accepts exactly the files the parsing function accepts and stores its entries |
| `ConfigFile.AcceptedExactly` | apps/rtss-updater/demo/src/rtss_updater_cmd.c:351-494 | A file is accepted with a list of entries if and only if each line means the entry at its place, one to five of them, with distinct supported names |
| `ConfigFile.TokenExactly` | apps/rtss-updater/demo/src/rtss_updater_cmd.c:381-423 | A token is a word behind spaces, cut at the next space; there is none exactly when only spaces are left |
| `ConfigFile.ChompedExactly` | apps/rtss-updater/demo/src/rtss_updater_cmd.c:430-434 | A path loses one CR LF or one LF without a CR before it, and nothing else |
| `ConfigFile.ConfigRoundTrip` | apps/rtss-updater/demo/src/rtss_updater_cmd.c:351-494 | One to five entries with distinct supported names, written with LF or CR LF and with or without an end of the last line, are read back as they are |
| `ConfigFile.StoredPathEnds` | apps/rtss-updater/demo/src/rtss_updater_cmd.c:430-442 | In a zeroed structure after a read, path i is read back if and only if it is shorter than its row or a NUL follows: an empty next path, an unused row, or one behind the last row |
| `ConfigFile.ReadFresh` | apps/rtss-updater/demo/src/rtss_updater_cmd.c:351-494 | The same for every accepted file, as read |
| `ConfigFile.LongPathMisread` | apps/rtss-updater/demo/src/rtss_updater_cmd.c:430-442 | A two-line file with a first path of 128 characters is accepted, and that path is read back with the second one behind it |
| `ConfigFile.EmptyPathAccepted` | apps/rtss-updater/demo/src/rtss_updater_cmd.c:430-442 | A name followed by a space alone is a line with an empty path |

## Left out

- Creation.Create: requires a mapping that holds mb_size bytes and every descriptor; beyond the bound of 2^32 a descriptor can lie behind mb_size, and a write outside the mapping is not modelled.
- Layout.ChanMapInit: does not model zero channels, for which the code indexes before the first configuration, and NULL arguments.
- Channels.Write: source and destination buffers are separate from the mailbox and hold the announced items, as the callers guarantee; the same for Channels.Read.
- MailboxApi.ReadTimed: the list of poll outcomes is finite; running out of it counts as a time-out.
- Protocol.GoingReaderDelivers: a time-out, a signal or an error that ends poll ends the read, so such actions are excluded.
- Protocol.ConsumedIsPrefix: a channel reset while the peer is active is excluded, as `api/rtss_mailbox_api.h` demands; the memory model is sequential consistency.
- Handshake.Library.HelloPing: does not model the two waiting times, only their outcomes.
- Gpt.ModifyGpt: requires the header, and as many bytes as its header_size claims, to lie inside the table file; the code reads on behind a file that is shorter, which is not modelled.
- Gpt.Session.GetPartitionInfo: requires a work buffer of 48 bytes when entries are read, which a failed second init can take away; reading beyond a buffer is not modelled. NULL output pointers are not modelled; the storage answers a repeated read equally.
- Partitions.ArrayOnDisk: says nothing of entries that end at 4 GiB or beyond, where the addresses wrap.
- Partitions.DamagedHeaderRejected: says nothing of damage that alters the header's size field, which changes what is checked.
- Preboot.Updater.PrebootSequence: buffer lengths, payload checksums and the contents of files are not modelled, and no claim is made that a file was loaded or that every step had a fresh verified reply; it starts from the zeroed context of a new process.
- Preboot.Updater.GetBootInfoContext: replies that name more than five images overrun the entry array in the code and are not modelled as such.
- ConfigFile.ImageConfig.Read: image names are compared as values; a name of exactly 128 characters, unterminated in its row, is refused in the code and in the model. NULL arguments and read errors are not modelled.
- OtaBuffer.Ota.Get: the count is unbounded.
- Opening and closing of devices, `ioctl`, `eventfd`, the kernel driver, `rtss_mb_chan_reset` and `rtss_mb_get_chan_stat`: thin wrappers.
- Post-boot and device-programming sequences, and the other message packers: they repeat the patterns modelled here.
- Command line, logging, timing records, signal handlers, `rtss_dbg`, `rtss_console`, `rtss_mbdemo`.
- Firmware behaviour and update states: the peer is arbitrary.
- `rtss_updater_loadfile` and the file loop of `rtss_updater_modifygpt`.

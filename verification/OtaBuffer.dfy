/** The shared OTA buffer: mapped by the first client, unmapped after the last one, outside
    the lock. */
module OtaBuffer {

  const OK: nat := 0
  const ERR: nat := 3

  /** Address 0 is NULL. */
  type Address = nat

  /** struct rtss_ota_context but for its lock. */
  datatype Context = Context(base: Address, sva: nat, refcount: int, size: nat)

  /** What open, ioctl and mmap come to. */
  datatype Device = Fails | Maps(addr: Address, sva: nat, size: nat)

  // ---- the two critical sections ----

  /** A get under the lock; mapped says whether the device was asked and agreed. */
  function Got(c: Context, d: Device): Context {
    if c.base != 0 then c.(refcount := c.refcount + 1)
    else if d.Maps? && d.addr != 0 then Context(d.addr, d.sva, 1, d.size)
    else c
  }

  function Released(c: Context): Context {
    if c.refcount <= 0 then c
    else if c.refcount == 1 then Context(0, 0, 0, 0)
    else c.(refcount := c.refcount - 1)
  }

  /** What the releasing client must unmap once it has left the lock; 0 for nothing. */
  function Detached(c: Context): Address {
    if c.refcount == 1 then c.base else 0
  }

  /** rtss_upd_ota_mmap_data_t. */
  class ClientData {
    var base: Address
    var sva: nat
    var size: nat

    constructor ()
      ensures base == 0 && sva == 0 && size == 0
    {
      base, sva, size := 0, 0, 0;
    }
  }

  /** rtss_ota_ctx; each method is one critical section with what follows it. */
  class Ota {
    var base: Address
    var sva: nat
    var refcount: int
    var size: nat

    constructor ()
      ensures Value() == Context(0, 0, 0, 0)
    {
      base, sva, refcount, size := 0, 0, 0, 0;
    }

    function Value(): Context
      reads this
    {
      Context(base, sva, refcount, size)
    }

    /** map_ota_buffer_locked. */
    method MapLocked(data: ClientData, device: Device) returns (ret: nat)
      modifies this, data
      ensures ret == if device.Maps? && device.addr != 0 then OK else ERR
      ensures ret != OK ==> Value() == old(Value()) && data.base == old(data.base)
      ensures ret == OK ==>
        && Value() == Context(device.addr, device.sva, 1, device.size)
        && data.base == base && data.sva == sva && data.size == size
    {
      if device.Fails? || device.addr == 0 {
        return ERR;
      }
      base, sva, size := device.addr, device.sva, device.size;
      refcount := 1;
      data.base, data.sva, data.size := base, sva, size;
      ret := OK;
    }

    /** rtss_upd_get_ota_buffer. */
    method Get(data: ClientData, device: Device) returns (ret: nat)
      modifies this, data
      ensures Value() == Got(old(Value()), device)
      ensures ret == OK <==> base != 0
      ensures ret == OK || ret == ERR
      ensures ret == OK ==> data.base == base && data.sva == sva && data.size == size
    {
      if base != 0 {
        data.base, data.sva, data.size := base, sva, size;
        refcount := refcount + 1;
        return OK;
      }
      ret := MapLocked(data, device);
    }

    /** rtss_upd_release_ota_buffer up to its munmap, whose argument is addr (0: no call). */
    method Release(data: ClientData?) returns (ret: nat, addr: Address)
      modifies this, data
      ensures data == null ==> ret == ERR && addr == 0 && Value() == old(Value())
      ensures data != null ==>
        && data.base == 0 && data.size == 0
        && Value() == Released(old(Value()))
        && ret == (if old(refcount) <= 0 then ERR else OK)
        && addr == (if ret == OK then Detached(old(Value())) else 0)
    {
      addr := 0;
      if data == null {
        return ERR, addr;
      }
      data.base, data.size := 0, 0;
      if refcount <= 0 {
        return ERR, addr;
      }
      refcount := refcount - 1;
      if refcount == 0 {
        addr := base;
        base, sva, size := 0, 0, 0;
      }
      ret := OK;
    }
  }

  // ---- any number of clients, interleaved ----

  /** A client between calls, with the buffer, or between leaving the lock and its munmap. id:
      history, the mapping its address stood for when it got it. */
  datatype Client = Idle | Holding(addr: Address, id: nat) | Unmapping(addr: Address, id: nat)

  /** live: what the kernel has mapped where. made: mappings made so far. unmapped: mappings
      unmapped so far, in order. current: history, the mapping at ctx.base. */
  datatype State = State(ctx: Context, clients: seq<Client>, live: map<Address, nat>, made: nat,
                         unmapped: seq<nat>, current: nat)

  datatype Step = GetStep(c: nat, device: Device) | ReleaseStep(c: nat) | UnmapStep(c: nat)

  /** The kernel maps at a free address. */
  predicate Sensible(s: State, step: Step) {
    && step.c < |s.clients|
    && (step.GetStep? && step.device.Maps? ==> step.device.addr !in s.live)
  }

  /** The state after a step; a step its client is not ready for changes nothing. */
  function Next(s: State, step: Step): State
    requires Sensible(s, step)
  {
    var c := step.c;
    match step
    case GetStep(_, device) =>
      if !s.clients[c].Idle? then s
      else
        var ctx := Got(s.ctx, device);
        if s.ctx.base != 0 then
          s.(ctx := ctx, clients := s.clients[c := Holding(ctx.base, s.current)])
        else if ctx.base != 0 then
          s.(ctx := ctx, clients := s.clients[c := Holding(ctx.base, s.made)], live := s.live[ctx.base := s.made],
             made := s.made + 1, current := s.made)
        else s
    case ReleaseStep(_) =>
      if !s.clients[c].Holding? then s
      else
        var addr := if s.ctx.refcount <= 0 then 0 else Detached(s.ctx);
        s.(ctx := Released(s.ctx),
           clients := s.clients[c := if addr == 0 then Idle else Unmapping(addr, s.current)])
    case UnmapStep(_) =>
      if !s.clients[c].Unmapping? then s
      else
        var addr := s.clients[c].addr;
        s.(clients := s.clients[c := Idle], live := s.live - {addr},
           unmapped := if addr in s.live then s.unmapped + [s.live[addr]] else s.unmapped)
  }

  function Holders(clients: seq<Client>): nat {
    if clients == [] then 0 else Holders(clients[..|clients| - 1]) + if clients[|clients| - 1].Holding? then 1 else 0
  }

  lemma {:induction false} HoldersUpdate(clients: seq<Client>, c: nat, v: Client)
    requires c < |clients|
    ensures Holders(clients[c := v]) ==
      Holders(clients) - (if clients[c].Holding? then 1 else 0) + (if v.Holding? then 1 else 0)
  {
    var n := |clients| - 1;
    if c == n {
      assert clients[c := v][..n] == clients[..n];
    } else {
      assert clients[c := v][..n] == clients[..n][c := v];
      HoldersUpdate(clients[..n], c, v);
    }
  }

  lemma {:induction false} HolderCounted(clients: seq<Client>, c: nat)
    requires c < |clients| && clients[c].Holding?
    ensures Holders(clients) > 0
  {
    HoldersUpdate(clients, c, Idle);
  }

  lemma {:induction false} NoHolders(clients: seq<Client>)
    requires forall c | 0 <= c < |clients| :: !clients[c].Holding?
    ensures Holders(clients) == 0
  {
    if clients != [] {
      NoHolders(clients[..|clients| - 1]);
    }
  }

  // ---- the invariant ----

  ghost predicate Counted(s: State) {
    && s.ctx.refcount == Holders(s.clients)
    && (s.ctx.base != 0 <==> s.ctx.refcount > 0)
  }

  /** The clients' addresses stand for the mappings they were given. */
  ghost predicate Faithful(s: State) {
    && 0 !in s.live
    && (s.ctx.base != 0 ==> s.ctx.base in s.live && s.live[s.ctx.base] == s.current)
    && (forall c | 0 <= c < |s.clients| && s.clients[c].Holding? ::
          s.clients[c].addr == s.ctx.base != 0 && s.clients[c].id == s.current)
    && (forall c | 0 <= c < |s.clients| && s.clients[c].Unmapping? ::
          && s.clients[c].addr in s.live && s.live[s.clients[c].addr] == s.clients[c].id
          && s.clients[c].addr != s.ctx.base && s.clients[c].addr != 0)
    && (forall c, d | 0 <= c < d < |s.clients| && s.clients[c].Unmapping? && s.clients[d].Unmapping? ::
          s.clients[c].addr != s.clients[d].addr)
  }

  /** Whoever will unmap it. */
  ghost predicate Leaving(s: State, addr: Address) {
    exists c | 0 <= c < |s.clients| :: s.clients[c].Unmapping? && s.clients[c].addr == addr
  }

  /** Nothing is mapped but the buffer in use and what is about to be unmapped. */
  ghost predicate NoLeak(s: State) {
    forall addr | addr in s.live :: addr == s.ctx.base || Leaving(s, addr)
  }

  ghost predicate Live(live: map<Address, nat>, id: nat) {
    exists a :: a in live && live[a] == id
  }

  /** Each mapping ever made is live at one address or has been unmapped, once. */
  ghost predicate Conserved(s: State) {
    && (forall a | a in s.live :: s.live[a] < s.made && s.live[a] !in s.unmapped)
    && (forall a, b | a in s.live && b in s.live && s.live[a] == s.live[b] :: a == b)
    && (forall i | 0 <= i < |s.unmapped| :: s.unmapped[i] < s.made)
    && (forall i, j | 0 <= i < j < |s.unmapped| :: s.unmapped[i] != s.unmapped[j])
    && (forall id: nat | id < s.made :: id in s.unmapped || Live(s.live, id))
  }

  ghost predicate Inv(s: State) {
    Counted(s) && Faithful(s) && NoLeak(s) && Conserved(s)
  }

  ghost predicate Initial(s: State) {
    && s.ctx == Context(0, 0, 0, 0) && s.live == map[] && s.made == 0 && s.unmapped == []
    && forall c | 0 <= c < |s.clients| :: s.clients[c].Idle?
  }

  lemma InitiallyHolds(s: State)
    requires Initial(s)
    ensures Inv(s)
  {
    NoHolders(s.clients);
  }

  /** A step that leaves the unmapping clients alone loses none of the leaving mappings. */
  lemma StillLeaving(s: State, t: State, addr: Address)
    requires Leaving(s, addr) && |t.clients| == |s.clients|
    requires forall c | 0 <= c < |s.clients| && s.clients[c].Unmapping? && s.clients[c].addr == addr ::
               t.clients[c] == s.clients[c]
    ensures Leaving(t, addr)
  {
    var c :| 0 <= c < |s.clients| && s.clients[c].Unmapping? && s.clients[c].addr == addr;
    assert t.clients[c].Unmapping? && t.clients[c].addr == addr;
  }

  lemma GetCounted(s: State, step: Step)
    requires Counted(s) && Sensible(s, step) && step.GetStep?
    ensures Counted(Next(s, step))
  {
    HoldersUpdate(s.clients, step.c, Next(s, step).clients[step.c]);
  }

  lemma GetFaithful(s: State, step: Step)
    requires Counted(s) && Faithful(s) && Sensible(s, step) && step.GetStep?
    ensures Faithful(Next(s, step))
  {
    hide Holders;
    if s.ctx.base == 0 {
      forall c | 0 <= c < |s.clients|
        ensures !s.clients[c].Holding?
      {
      }
    }
  }

  lemma GetNoLeak(s: State, step: Step)
    requires Faithful(s) && NoLeak(s) && Sensible(s, step) && step.GetStep?
    ensures NoLeak(Next(s, step))
  {
    hide Leaving;
    var t := Next(s, step);
    forall addr | addr in t.live
      ensures addr == t.ctx.base || Leaving(t, addr)
    {
      if addr != t.ctx.base {
        StillLeaving(s, t, addr);
      }
    }
  }

  lemma GetHolds(s: State, step: Step)
    requires Inv(s) && Sensible(s, step) && step.GetStep?
    ensures Inv(Next(s, step))
  {
    hide Counted, Faithful, NoLeak, Conserved;
    var t := Next(s, step);
    GetCounted(s, step);
    GetFaithful(s, step);
    GetNoLeak(s, step);
    if t.made != s.made {
      MapConserves(s, t);
    } else {
      SameConserved(s, t);
    }
  }

  lemma SameConserved(s: State, t: State)
    requires Conserved(s) && t.live == s.live && t.made == s.made && t.unmapped == s.unmapped
    ensures Conserved(t)
  {
  }

  lemma MapConserves(s: State, t: State)
    requires Conserved(s) && t.ctx.base !in s.live
    requires t.live == s.live[t.ctx.base := s.made] && t.made == s.made + 1 && t.unmapped == s.unmapped
    ensures Conserved(t)
  {
    hide Live;
    forall id: nat | id < t.made
      ensures id in t.unmapped || Live(t.live, id)
    {
      MapLive(s.live, t.ctx.base, s.made, id);
    }
  }

  lemma MapLive(live: map<Address, nat>, addr: Address, made: nat, id: nat)
    requires addr !in live
    ensures Live(live[addr := made], id) <==> Live(live, id) || id == made
  {
    var t := live[addr := made];
    if Live(live, id) {
      var a :| a in live && live[a] == id;
      assert t[a] == id;
    }
    assert t[addr] == made;
  }

  lemma ReleaseHolds(s: State, step: Step)
    requires Inv(s) && Sensible(s, step) && step.ReleaseStep?
    ensures Inv(Next(s, step))
  {
    hide Conserved, Leaving;
    var t := Next(s, step);
    SameConserved(s, t);
    if t != s {
      HolderCounted(s.clients, step.c);
      HoldersUpdate(s.clients, step.c, t.clients[step.c]);
      forall d | 0 <= d < |t.clients| && t.clients[d].Holding?
        ensures t.clients[d].addr == t.ctx.base != 0 && t.clients[d].id == t.current
      {
        HolderCounted(t.clients, d);
        assert t.clients[d] == s.clients[d];
      }
      ReleaseNoLeak(s, t, step.c);
    }
  }

  lemma ReleaseNoLeak(s: State, t: State, c: nat)
    requires NoLeak(s) && Faithful(s) && |t.clients| == |s.clients| && c < |s.clients| && t.live == s.live
    requires s.clients[c].Holding? && t.clients == s.clients[c := t.clients[c]]
    requires t.ctx.base == s.ctx.base || t.clients[c] == Unmapping(s.ctx.base, s.current)
    ensures NoLeak(t)
  {
    forall addr | addr in t.live
      ensures addr == t.ctx.base || Leaving(t, addr)
    {
      if addr == s.ctx.base {
        if t.ctx.base != s.ctx.base {
          assert t.clients[c].addr == addr;
        }
      } else {
        StillLeaving(s, t, addr);
      }
    }
  }

  lemma UnmapHolds(s: State, step: Step)
    requires Inv(s) && Sensible(s, step) && step.UnmapStep?
    ensures Inv(Next(s, step))
  {
    hide Conserved, Leaving;
    var t := Next(s, step);
    if t != s {
      HoldersUpdate(s.clients, step.c, Idle);
      forall addr | addr in t.live
        ensures addr == t.ctx.base || Leaving(t, addr)
      {
        if addr != t.ctx.base {
          StillLeaving(s, t, addr);
        }
      }
      UnmapConserves(s, t, s.clients[step.c].addr);
    }
  }

  lemma UnmapConserves(s: State, t: State, gone: Address)
    requires Conserved(s) && gone in s.live
    requires t.live == s.live - {gone} && t.made == s.made && t.unmapped == s.unmapped + [s.live[gone]]
    ensures Conserved(t)
  {
    hide Live;
    forall id: nat | id < t.made
      ensures id in t.unmapped || Live(t.live, id)
    {
      if id in s.unmapped {
        assert id in t.unmapped;
      } else if id == s.live[gone] {
        assert t.unmapped[|s.unmapped|] == id;
      } else {
        UnmapLive(s.live, gone, id);
      }
    }
  }

  lemma UnmapLive(live: map<Address, nat>, gone: Address, id: nat)
    requires gone in live && Live(live, id) && id != live[gone]
    ensures Live(live - {gone}, id)
  {
    var a :| a in live && live[a] == id;
    assert a in live - {gone} && (live - {gone})[a] == id;
  }

  lemma StepHolds(s: State, step: Step)
    requires Inv(s) && Sensible(s, step)
    ensures Inv(Next(s, step))
  {
    hide Inv;
    match step {
      case GetStep(_, _) => GetHolds(s, step);
      case ReleaseStep(_) => ReleaseHolds(s, step);
      case UnmapStep(_) => UnmapHolds(s, step);
    }
  }

  /** A run: s[0] is initial and each state follows from the one before by a step. */
  ghost predicate Run(states: seq<State>, steps: seq<Step>) {
    && |states| == |steps| + 1 && Initial(states[0])
    && forall k | 0 <= k < |steps| :: Sensible(states[k], steps[k]) && states[k + 1] == Next(states[k], steps[k])
  }

  lemma {:induction false} RunHolds(states: seq<State>, steps: seq<Step>, k: nat)
    requires Run(states, steps) && k < |states|
    ensures Inv(states[k])
  {
    hide Inv, Initial;
    if k == 0 {
      InitiallyHolds(states[0]);
    } else {
      RunHolds(states, steps, k - 1);
      StepHolds(states[k - 1], steps[k - 1]);
    }
  }

  // ---- what that means for the clients ----

  /** In every state of every run: the count is the number of clients holding the buffer, the
      base is set exactly then, and each of them holds the mapping it was given, still mapped
      at that address. */
  lemma HoldersKeepTheirMapping(states: seq<State>, steps: seq<Step>, k: nat, c: nat)
    requires Run(states, steps) && k < |states| && c < |states[k].clients|
    ensures var s := states[k];
      && s.ctx.refcount == Holders(s.clients) && (s.ctx.base != 0 <==> s.ctx.refcount > 0)
      && (s.clients[c].Holding? ==>
            && s.clients[c].addr == s.ctx.base && s.clients[c].addr in s.live
            && s.live[s.clients[c].addr] == s.clients[c].id && s.clients[c].id !in s.unmapped)
  {
    hide Inv, Run;
    RunHolds(states, steps, k);
    InvParts(states[k]);
  }

  lemma InvParts(s: State)
    requires Inv(s)
    ensures Counted(s) && Faithful(s) && NoLeak(s) && Conserved(s)
  {
  }

  /** A munmap removes exactly the mapping that its client detached, once, and no client
      holds it, even when the buffer has been mapped anew in between. */
  lemma UnmapsItsOwn(states: seq<State>, steps: seq<Step>, k: nat)
    requires Run(states, steps) && k < |steps| && steps[k].UnmapStep?
    requires states[k].clients[steps[k].c].Unmapping?
    ensures var s, t, client := states[k], states[k + 1], states[k].clients[steps[k].c];
      && t.unmapped == s.unmapped + [client.id] && client.id !in s.unmapped
      && forall d | 0 <= d < |s.clients| && s.clients[d].Holding? :: s.clients[d].id != client.id
  {
    RunHolds(states, steps, k);
    var s, client := states[k], states[k].clients[steps[k].c];
    forall d | 0 <= d < |s.clients| && s.clients[d].Holding?
      ensures s.clients[d].id != client.id
    {
      assert s.live[s.ctx.base] == s.clients[d].id;
    }
  }

  /** When every client is idle nothing is mapped, and each mapping ever made has been
      unmapped exactly once. */
  lemma AllReturned(states: seq<State>, steps: seq<Step>, k: nat)
    requires Run(states, steps) && k < |states|
    requires forall c | 0 <= c < |states[k].clients| :: states[k].clients[c].Idle?
    ensures var s := states[k];
      && s.ctx.base == 0 && s.ctx.refcount == 0 && s.live == map[]
      && (forall id: nat | id < s.made :: id in s.unmapped)
      && (forall i, j | 0 <= i < j < |s.unmapped| :: s.unmapped[i] != s.unmapped[j])
  {
    var s := states[k];
    RunHolds(states, steps, k);
    NoHolders(s.clients);
    forall a
      ensures a !in s.live
    {
    }
    forall id: nat
      ensures !Live(s.live, id)
    {
    }
  }

  /** A release by a client that holds the buffer never finds the count at zero. */
  lemma ReleaseSucceeds(states: seq<State>, steps: seq<Step>, k: nat)
    requires Run(states, steps) && k < |steps| && steps[k].ReleaseStep?
    requires states[k].clients[steps[k].c].Holding?
    ensures states[k].ctx.refcount > 0
    ensures states[k + 1].ctx.refcount == states[k].ctx.refcount - 1
  {
    RunHolds(states, steps, k);
    HolderCounted(states[k].clients, steps[k].c);
  }
}

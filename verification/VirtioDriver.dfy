/** The exchange the guest's console driver makes (`chan_send_recv`, spelled out in the tests of
    tb-vmm/src/virtio_mmio.rs): reset, handshake, two queues of size 4, one buffer posted, one request sent.
    Whatever state the device was in, the request reaches the peer and its answer comes to stand in the buffer. */
module VirtioDriver {
  import opened Words
  import opened GuestMemory
  import opened VirtQueue
  import opened VirtioDevice
  import opened VirtioLoops
  import opened VirtioKicks
  import opened VirtioEnds
  import opened VirtioRegisters
  import InferWire
  import InferPeer

  // ---- What the driver does --------------------------------------------------------------------

  /** Status 0, 1, 3; the features, of which it takes VERSION_1 only; status 11. */
  const HANDSHAKE: seq<Command> :=
    [WriteRegister(0x070, 0), WriteRegister(0x070, 1), WriteRegister(0x070, 3), WriteRegister(0x014, 1),
     WriteRegister(0x024, 0), WriteRegister(0x020, 0), WriteRegister(0x024, 1), WriteRegister(0x020, 1),
     WriteRegister(0x070, 11)]

  function Low(x: u64): u32 {
    x % 0x1_0000_0000
  }

  function High(x: u64): u32 {
    x / 0x1_0000_0000
  }

  function QueueWrites(k: u32, desc: u64, driver: u64, device: u64): seq<Command> {
    [WriteRegister(0x030, k), WriteRegister(0x038, 4),
     WriteRegister(0x080, Low(desc)), WriteRegister(0x084, High(desc)),
     WriteRegister(0x090, Low(driver)), WriteRegister(0x094, High(driver)),
     WriteRegister(0x0A0, Low(device)), WriteRegister(0x0A4, High(device))]
  }

  /** Stores descriptor 0 of the table at `at`. */
  function DescStores(at: nat, addr: u64, len: u32, flags: u16): seq<Command> {
    [Store(at, Le(addr, 8)), Store(at + 8, Le(len, 4)), Store(at + 12, Le(flags, 2)), Store(at + 14, Le(0, 2))]
  }

  /** Puts head 0 at the front of the avail ring at `at`. */
  function PostStores(at: nat): seq<Command> {
    [Store(at + 4, Le(0, 2)), Store(at + 2, Le(1, 2))]
  }

  // Tables, rings and buffers lie in a frame at `f`: descriptors, avail ring and used ring of the receive queue at
  // 0, 0x40 and 0x80, of the transmit queue at 0xC0, 0x100 and 0x140; the request at 0x200, the answer at 0x400.

  function ReceiveSetUp(f: nat, room: nat): seq<Command>
    requires f + 0x400 < TWO64 && room < TWO32
  {
    QueueWrites(0, f, f + 0x40, f + 0x80) + DescStores(f, f + 0x400, room, 2)
    + [Store(f + 0x40, Le(1, 2))] + PostStores(f + 0x40) + [WriteRegister(0x044, 1)]
  }

  function TransmitSetUp(f: nat): seq<Command>
    requires f + 0x400 < TWO64
  {
    QueueWrites(1, f + 0xC0, f + 0x100, f + 0x140) + [Store(f + 0x100, Le(1, 2))] + [WriteRegister(0x044, 1)]
    + [WriteRegister(0x070, 15)]
  }

  function Request(f: nat, req: seq<byte>): seq<Command>
    requires f + 0x400 < TWO64 && |req| <= 0x200
  {
    [Store(f + 0x200, req)] + DescStores(f + 0xC0, f + 0x200, |req|, 0) + PostStores(f + 0x100)
  }

  function Prepare(f: nat, req: seq<byte>, room: nat): seq<Command>
    requires f + 0x400 < TWO64 && |req| <= 0x200 && room < TWO32
  {
    HANDSHAKE + ReceiveSetUp(f, room) + TransmitSetUp(f) + Request(f, req)
  }

  function Exchange(f: nat, req: seq<byte>, room: nat): seq<Command>
    requires f + 0x400 < TWO64 && |req| <= 0x200 && room < TWO32
  {
    Prepare(f, req, room) + [WriteRegister(0x050, 1)]
  }

  // ---- Step by step ----------------------------------------------------------------------------

  /** From `d0` the commands `cs`, all of which end, lead to `d`. */
  ghost predicate Leads<S>(d0: Device<S>, cs: seq<Command>, d: Device<S>) {
    AllEnd(d0, cs) && Session(d0, cs) == d
  }

  lemma LeadsNowhere<S>(d0: Device<S>, cs: seq<Command>)
    requires cs == []
    ensures Leads(d0, cs, d0)
  {
  }

  lemma Step<S>(d0: Device<S>, cs: seq<Command>, d: Device<S>, c: Command)
    requires Leads(d0, cs, d) && Ends(d, c)
    ensures Leads(d0, cs + [c], Do(d, c))
  {
    hide Ends, Do, AllEnd, Session;
    SessionGrows(d0, cs, c);
  }

  lemma Writes<S>(d0: Device<S>, cs: seq<Command>, d: Device<S>, offset: nat, v: u32)
    returns (cs': seq<Command>, d': Device<S>)
    requires Leads(d0, cs, d) && offset != 0x050
    ensures cs' == cs + [WriteRegister(offset, v)] && d' == WriteReg(d, offset, v) && Leads(d0, cs', d')
  {
    hide WriteReg, Leads, KickEnds, Notify;
    cs', d' := cs + [WriteRegister(offset, v)], WriteReg(d, offset, v);
    Step(d0, cs, d, WriteRegister(offset, v));
  }

  lemma Stores<S>(d0: Device<S>, cs: seq<Command>, d: Device<S>, at: nat, b: seq<byte>)
    returns (cs': seq<Command>, d': Device<S>)
    requires Leads(d0, cs, d)
    ensures cs' == cs + [Store(at, b)] && d' == d.(ram := Write(d.ram, at, b).0) && Leads(d0, cs', d')
  {
    hide Leads, Write;
    cs', d' := cs + [Store(at, b)], d.(ram := Write(d.ram, at, b).0);
    Step(d0, cs, d, Store(at, b));
  }

  /** The handshake: FEATURES_OK sticks. */
  lemma HandshakeLeads<S>(d: Device<S>)
    ensures Leads(d, HANDSHAKE, d.(regs := Regs(11, 1, 1, 0, 1, 0), queues := RESET_QUEUES))
  {
    hide Leads, WriteQueueReg;
    var cs, e := [], d;
    LeadsNowhere(d, cs);
    cs, e := Writes(d, cs, e, 0x070, 0);
    cs, e := Writes(d, cs, e, 0x070, 1);
    cs, e := Writes(d, cs, e, 0x070, 3);
    cs, e := Writes(d, cs, e, 0x014, 1);
    cs, e := Writes(d, cs, e, 0x024, 0);
    cs, e := Writes(d, cs, e, 0x020, 0);
    cs, e := Writes(d, cs, e, 0x024, 1);
    cs, e := Writes(d, cs, e, 0x020, 1);
    cs, e := Writes(d, cs, e, 0x070, 11);
    assert cs == HANDSHAKE;
  }

  /** An address is its two halves, whatever stood there before. */
  lemma HalvesMakeAddress(x: u64, before: u64)
    ensures SetAddr(SetAddr(before, Low(x), false), High(x), true) == x
  {
  }

  lemma QueueSized<S>(d0: Device<S>, cs: seq<Command>, d: Device<S>, k: u32, desc: u64)
    returns (cs': seq<Command>, d': Device<S>)
    requires Leads(d0, cs, d) && k < 2
    ensures cs' == cs + [WriteRegister(0x030, k), WriteRegister(0x038, 4),
                         WriteRegister(0x080, Low(desc)), WriteRegister(0x084, High(desc))]
    ensures d' == d.(regs := d.regs.(queueSel := k), queues := d.queues[k := d.queues[k].(num := 4, desc := desc)])
    ensures Leads(d0, cs', d')
  {
    hide Leads, SetAddr, Low, High;
    HalvesMakeAddress(desc, d.queues[k].desc);
    cs', d' := Writes(d0, cs, d, 0x030, k);
    cs', d' := Writes(d0, cs', d', 0x038, 4);
    cs', d' := Writes(d0, cs', d', 0x080, Low(desc));
    cs', d' := Writes(d0, cs', d', 0x084, High(desc));
    assert d'.queues == d.queues[k := d.queues[k].(num := 4, desc := desc)];
  }

  lemma QueuePlaced<S>(d0: Device<S>, cs: seq<Command>, d: Device<S>, k: u32, driver: u64, device: u64)
    returns (cs': seq<Command>, d': Device<S>)
    requires Leads(d0, cs, d) && k < 2 && d.regs.queueSel == k
    ensures cs' == cs + [WriteRegister(0x090, Low(driver)), WriteRegister(0x094, High(driver)),
                         WriteRegister(0x0A0, Low(device)), WriteRegister(0x0A4, High(device))]
    ensures d' == d.(queues := d.queues[k := d.queues[k].(driver := driver, device := device)])
    ensures Leads(d0, cs', d')
  {
    hide Leads, SetAddr, Low, High;
    HalvesMakeAddress(driver, d.queues[k].driver);
    HalvesMakeAddress(device, d.queues[k].device);
    cs', d' := Writes(d0, cs, d, 0x090, Low(driver));
    cs', d' := Writes(d0, cs', d', 0x094, High(driver));
    cs', d' := Writes(d0, cs', d', 0x0A0, Low(device));
    cs', d' := Writes(d0, cs', d', 0x0A4, High(device));
    assert d'.queues == d.queues[k := d.queues[k].(driver := driver, device := device)];
  }

  /** The queue is selected, sized and placed. */
  lemma QueueWritesLead<S>(d0: Device<S>, cs: seq<Command>, d: Device<S>, k: u32, desc: u64, driver: u64, device: u64)
    requires Leads(d0, cs, d) && k < 2
    ensures Leads(d0, cs + QueueWrites(k, desc, driver, device),
                  d.(regs := d.regs.(queueSel := k),
                     queues := d.queues[k := d.queues[k].(num := 4, desc := desc, driver := driver, device := device)]))
  {
    hide Leads, Low, High;
    var cs1, e := QueueSized(d0, cs, d, k, desc);
    cs1, e := QueuePlaced(d0, cs1, e, k, driver, device);
    assert cs1 == cs + QueueWrites(k, desc, driver, device);
    assert e.queues == d.queues[k := d.queues[k].(num := 4, desc := desc, driver := driver, device := device)];
  }

  // ---- Memory ----------------------------------------------------------------------------------

  /** Nothing changed outside `at .. at + n`. */
  ghost predicate SameBut(ram: seq<byte>, ram': seq<byte>, at: nat, n: nat) {
    |ram'| == |ram| && forall a :: 0 <= a < |ram| && !(at <= a < at + n) ==> ram'[a] == ram[a]
  }

  lemma WordStands(ram: seq<byte>, at: nat, v: nat, n: nat)
    requires at + n <= |ram| && ram[at..at + n] == Le(v, n) && v < Pow256(n)
    ensures ReadWord(ram, at, n) == Some(v)
  {
    hide Le, FromLe;
    FromLeOfLe(v, n);
  }

  lemma OneWriteStands(ram: seq<byte>, at: nat, b: seq<byte>)
    requires at + |b| <= |ram|
    ensures var ram' := Write(ram, at, b).0; SameBut(ram, ram', at, |b|) && |ram'| == |ram| && ram'[at..at + |b|] == b
  {
    hide Write;
    WriteBytes(ram, at, b);
  }

  /** What stands outside the change still stands. */
  lemma SliceKept(ram: seq<byte>, ram': seq<byte>, at: nat, n: nat, o: nat, m: nat)
    requires SameBut(ram, ram', at, n) && o + m <= |ram| && (o + m <= at || at + n <= o)
    ensures ram'[o..o + m] == ram[o..o + m]
  {
  }

  lemma WordKept(ram: seq<byte>, ram': seq<byte>, at: nat, n: nat, o: nat, m: nat)
    requires SameBut(ram, ram', at, n) && o + m <= |ram| && (o + m <= at || at + n <= o)
    ensures ReadWord(ram', o, m) == ReadWord(ram, o, m)
  {
    hide FromLe, SameBut;
    SliceKept(ram, ram', at, n, o, m);
    assert |ram'| == |ram| by { SameSizeBut(ram, ram', at, n); }
  }

  lemma SameSizeBut(ram: seq<byte>, ram': seq<byte>, at: nat, n: nat)
    requires SameBut(ram, ram', at, n)
    ensures |ram'| == |ram|
  {
  }

  lemma DescKept(ram: seq<byte>, ram': seq<byte>, at: nat, n: nat, table: u64)
    requires SameBut(ram, ram', at, n) && table + 16 <= |ram| <= TWO64 && (table + 16 <= at || at + n <= table)
    ensures ReadDesc(ram', table, 0) == ReadDesc(ram, table, 0)
  {
    hide SameBut, ReadWord, Wrap64, DescAt;
    DescriptorAddresses(table, 0);
    WordKept(ram, ram', at, n, table, 8);
    WordKept(ram, ram', at, n, table + 8, 4);
    WordKept(ram, ram', at, n, table + 12, 2);
    WordKept(ram, ram', at, n, table + 14, 2);
  }

  /** The four fields of descriptor 0. */
  lemma FieldsMakeDescriptor(ram: seq<byte>, at: u64, addr: u64, len: u32, flags: u16, next: u16)
    requires at + 16 <= TWO64
    requires ReadWord(ram, at, 8) == Some(addr) && ReadWord(ram, at + 8, 4) == Some(len)
    requires ReadWord(ram, at + 12, 2) == Some(flags) && ReadWord(ram, at + 14, 2) == Some(next)
    ensures ReadDesc(ram, at, 0) == Some(Desc(addr, len, flags, next))
  {
    hide ReadWord, Wrap64, DescAt;
    DescriptorAddresses(at, 0);
  }

  /** Four stores make a descriptor. */
  lemma DescriptorStands(ram: seq<byte>, at: u64, addr: u64, len: u32, flags: u16)
    requires at + 16 <= |ram| <= TWO64
    ensures var ram1 := Write(ram, at, Le(addr, 8)).0;
            var ram2 := Write(ram1, at + 8, Le(len, 4)).0;
            var ram3 := Write(ram2, at + 12, Le(flags, 2)).0;
            var ram4 := Write(ram3, at + 14, Le(0, 2)).0;
            SameBut(ram, ram4, at, 16) && ReadDesc(ram4, at, 0) == Some(Desc(addr, len, flags, 0))
  {
    hide Le, Write, ReadWord, SameBut, ReadDesc, Wrap64;
    var ram1 := Write(ram, at, Le(addr, 8)).0;
    var ram2 := Write(ram1, at + 8, Le(len, 4)).0;
    var ram3 := Write(ram2, at + 12, Le(flags, 2)).0;
    var ram4 := Write(ram3, at + 14, Le(0, 2)).0;
    WordBounds();
    OneWordWritten(ram, at, addr, 8);
    OneWordWritten(ram1, at + 8, len, 4);
    OneWordWritten(ram2, at + 12, flags, 2);
    OneWordWritten(ram3, at + 14, 0, 2);
    WordKept(ram1, ram2, at + 8, 4, at, 8);
    WordKept(ram2, ram3, at + 12, 2, at, 8);
    WordKept(ram3, ram4, at + 14, 2, at, 8);
    WordKept(ram2, ram3, at + 12, 2, at + 8, 4);
    WordKept(ram3, ram4, at + 14, 2, at + 8, 4);
    WordKept(ram3, ram4, at + 14, 2, at + 12, 2);
    FourChanges(ram, ram1, ram2, ram3, ram4, at);
    FieldsMakeDescriptor(ram4, at, addr, len, flags, 0);
  }

  lemma OneWordWritten(ram: seq<byte>, at: nat, v: nat, n: nat)
    requires at + n <= |ram| && v < Pow256(n)
    ensures var ram' := Write(ram, at, Le(v, n)).0;
            SameBut(ram, ram', at, n) && |ram'| == |ram| && ReadWord(ram', at, n) == Some(v)
  {
    hide Le, Write, ReadWord, SameBut;
    OneWriteStands(ram, at, Le(v, n));
    WordStands(Write(ram, at, Le(v, n)).0, at, v, n);
  }

  lemma FourChanges(ram: seq<byte>, ram1: seq<byte>, ram2: seq<byte>, ram3: seq<byte>, ram4: seq<byte>, at: nat)
    requires SameBut(ram, ram1, at, 8) && SameBut(ram1, ram2, at + 8, 4) && SameBut(ram2, ram3, at + 12, 2)
    requires SameBut(ram3, ram4, at + 14, 2)
    ensures SameBut(ram, ram4, at, 16)
  {
  }

  /** The first head of the avail ring at `at` is 0, and its index is 1. */
  ghost predicate PostedFirst(ram: seq<byte>, at: nat) {
    ReadWord(ram, at + 4, 2) == Some(0) && ReadWord(ram, at + 2, 2) == Some(1)
  }

  lemma PostStands(ram: seq<byte>, at: nat)
    requires at + 6 <= |ram|
    ensures var ram2 := Write(Write(ram, at + 4, Le(0, 2)).0, at + 2, Le(1, 2)).0;
            SameBut(ram, ram2, at, 6) && PostedFirst(ram2, at)
  {
    hide Le, Write, ReadWord, SameBut;
    var ram1 := Write(ram, at + 4, Le(0, 2)).0;
    var ram2 := Write(ram1, at + 2, Le(1, 2)).0;
    WordBounds();
    OneWordWritten(ram, at + 4, 0, 2);
    OneWordWritten(ram1, at + 2, 1, 2);
    WordKept(ram1, ram2, at + 2, 2, at + 4, 2);
    TwoChanges(ram, ram1, ram2, at);
  }

  lemma TwoChanges(ram: seq<byte>, ram1: seq<byte>, ram2: seq<byte>, at: nat)
    requires SameBut(ram, ram1, at + 4, 2) && SameBut(ram1, ram2, at + 2, 2)
    ensures SameBut(ram, ram2, at, 6)
  {
  }

  lemma PostKept(ram: seq<byte>, ram': seq<byte>, at: nat, n: nat, ring: nat)
    requires SameBut(ram, ram', at, n) && PostedFirst(ram, ring) && ring + 6 <= |ram| && (ring + 6 <= at || at + n <= ring)
    ensures PostedFirst(ram', ring)
  {
    hide SameBut, ReadWord;
    WordKept(ram, ram', at, n, ring + 4, 2);
    WordKept(ram, ram', at, n, ring + 2, 2);
  }

  // ---- Where the preparations lead ---------------------------------------------------------------

  lemma DescStoresLead<S>(d0: Device<S>, cs: seq<Command>, d: Device<S>, at: u64, addr: u64, len: u32, flags: u16)
    returns (ram': seq<byte>)
    requires Leads(d0, cs, d) && at + 16 <= |d.ram| <= TWO64
    ensures Leads(d0, cs + DescStores(at, addr, len, flags), d.(ram := ram'))
    ensures SameBut(d.ram, ram', at, 16) && ReadDesc(ram', at, 0) == Some(Desc(addr, len, flags, 0))
  {
    hide Leads, Write, Le, ReadDesc, SameBut;
    var cs1, e := Stores(d0, cs, d, at, Le(addr, 8));
    cs1, e := Stores(d0, cs1, e, at + 8, Le(len, 4));
    cs1, e := Stores(d0, cs1, e, at + 12, Le(flags, 2));
    cs1, e := Stores(d0, cs1, e, at + 14, Le(0, 2));
    assert cs1 == cs + DescStores(at, addr, len, flags);
    ram' := e.ram;
    DescriptorStands(d.ram, at, addr, len, flags);
  }

  lemma PostStoresLead<S>(d0: Device<S>, cs: seq<Command>, d: Device<S>, at: nat) returns (ram': seq<byte>)
    requires Leads(d0, cs, d) && at + 6 <= |d.ram|
    ensures Leads(d0, cs + PostStores(at), d.(ram := ram'))
    ensures SameBut(d.ram, ram', at, 6) && PostedFirst(ram', at)
  {
    hide Leads, Write, Le, PostedFirst, SameBut;
    var cs1, e := Stores(d0, cs, d, at + 4, Le(0, 2));
    cs1, e := Stores(d0, cs1, e, at + 2, Le(1, 2));
    assert cs1 == cs + PostStores(at);
    ram' := e.ram;
    PostStands(d.ram, at);
  }

  lemma StoreLeads<S>(d0: Device<S>, cs: seq<Command>, d: Device<S>, at: nat, b: seq<byte>) returns (ram': seq<byte>)
    requires Leads(d0, cs, d) && at + |b| <= |d.ram|
    ensures Leads(d0, cs + [Store(at, b)], d.(ram := ram'))
    ensures SameBut(d.ram, ram', at, |b|) && |ram'| == |d.ram| && ram'[at..at + |b|] == b
  {
    hide Leads, Write, SameBut;
    var cs1, e := Stores(d0, cs, d, at, b);
    ram' := e.ram;
    OneWriteStands(d.ram, at, b);
  }

  function ReceiveQueue(f: nat): Queue
    requires f + 0x400 < TWO64
  {
    Queue(4, true, f, f + 0x40, f + 0x80, 0, 0)
  }

  function TransmitQueue(f: nat): Queue
    requires f + 0x400 < TWO64
  {
    Queue(4, true, f + 0xC0, f + 0x100, f + 0x140, 0, 0)
  }

  /** The posted buffer: one descriptor, its head first in the avail ring. */
  ghost predicate BufferPosted(ram: seq<byte>, f: nat, room: nat)
    requires f + 0x400 < TWO64 && room < TWO32
  {
    ReadDesc(ram, f, 0) == Some(Desc(f + 0x400, room, 2, 0)) && PostedFirst(ram, f + 0x40)
  }

  lemma BufferKept(ram: seq<byte>, ram': seq<byte>, f: nat, room: nat, at: nat, n: nat)
    requires f + 0x400 <= |ram| < TWO64 && room < TWO32
    requires SameBut(ram, ram', at, n) && at >= f + 0x46 && BufferPosted(ram, f, room)
    ensures BufferPosted(ram', f, room)
  {
    hide SameBut, ReadDesc, PostedFirst;
    DescKept(ram, ram', at, n, f);
    PostKept(ram, ram', at, n, f + 0x40);
  }

  lemma ReceiveSetUpLeads<S>(d0: Device<S>, cs: seq<Command>, d: Device<S>, f: nat, room: nat) returns (ram': seq<byte>)
    requires f + 0x400 <= |d.ram| < TWO64 && room < TWO32
    requires Leads(d0, cs, d) && d.regs.queueSel == 0 && d.queues == RESET_QUEUES
    ensures Leads(d0, cs + ReceiveSetUp(f, room), d.(ram := ram', queues := [ReceiveQueue(f), UNUSED_QUEUE]))
    ensures |ram'| == |d.ram| && BufferPosted(ram', f, room)
  {
    hide Leads, SameBut, ReadDesc, PostedFirst, QueueWrites, DescStores, PostStores, Le;
    QueueWritesLead(d0, cs, d, 0, f, f + 0x40, f + 0x80);
    var cs1 := cs + QueueWrites(0, f, f + 0x40, f + 0x80);
    var e := d.(queues := [Queue(4, false, f, f + 0x40, f + 0x80, 0, 0), UNUSED_QUEUE]);
    assert e.queues == d.queues[0 := d.queues[0].(num := 4, desc := f, driver := f + 0x40, device := f + 0x80)];
    var ram1 := DescStoresLead(d0, cs1, e, f, f + 0x400, room, 2);
    SameSizeBut(d.ram, ram1, f, 16);
    cs1, e := cs1 + DescStores(f, f + 0x400, room, 2), e.(ram := ram1);
    var ram2 := StoreLeads(d0, cs1, e, f + 0x40, Le(1, 2));
    cs1, e := cs1 + [Store(f + 0x40, Le(1, 2))], e.(ram := ram2);
    ram' := PostStoresLead(d0, cs1, e, f + 0x40);
    SameSizeBut(ram2, ram', f + 0x40, 6);
    cs1, e := cs1 + PostStores(f + 0x40), e.(ram := ram');
    var cs2, e2 := Writes(d0, cs1, e, 0x044, 1);
    DescKept(ram1, ram2, f + 0x40, 2, f);
    DescKept(ram2, ram', f + 0x40, 6, f);
    assert cs2 == cs + ReceiveSetUp(f, room);
    assert e2 == d.(ram := ram', queues := [ReceiveQueue(f), UNUSED_QUEUE]);
  }

  lemma TransmitSetUpLeads<S>(d0: Device<S>, cs: seq<Command>, d: Device<S>, f: nat, room: nat) returns (ram': seq<byte>)
    requires f + 0x400 <= |d.ram| < TWO64 && room < TWO32 && BufferPosted(d.ram, f, room)
    requires Leads(d0, cs, d) && d.regs == Regs(11, 1, 1, 0, 1, 0) && d.queues == [ReceiveQueue(f), UNUSED_QUEUE]
    ensures Leads(d0, cs + TransmitSetUp(f), d.(ram := ram', regs := Regs(15, 1, 1, 0, 1, 1),
                                                queues := [ReceiveQueue(f), TransmitQueue(f)]))
    ensures |ram'| == |d.ram| && BufferPosted(ram', f, room)
  {
    hide Leads, SameBut, BufferPosted, QueueWrites, Le;
    QueueWritesLead(d0, cs, d, 1, f + 0xC0, f + 0x100, f + 0x140);
    var cs1 := cs + QueueWrites(1, f + 0xC0, f + 0x100, f + 0x140);
    var e := d.(regs := Regs(11, 1, 1, 0, 1, 1),
                queues := [ReceiveQueue(f), Queue(4, false, f + 0xC0, f + 0x100, f + 0x140, 0, 0)]);
    assert e.queues == d.queues[1 := d.queues[1].(num := 4, desc := f + 0xC0, driver := f + 0x100, device := f + 0x140)];
    ram' := StoreLeads(d0, cs1, e, f + 0x100, Le(1, 2));
    BufferKept(d.ram, ram', f, room, f + 0x100, 2);
    cs1, e := cs1 + [Store(f + 0x100, Le(1, 2))], e.(ram := ram');
    var cs2, e2 := Writes(d0, cs1, e, 0x044, 1);
    assert e2 == d.(ram := ram', regs := Regs(11, 1, 1, 0, 1, 1), queues := [ReceiveQueue(f), TransmitQueue(f)]);
    cs2, e2 := Writes(d0, cs2, e2, 0x070, 15);
    assert cs2 == cs + TransmitSetUp(f);
  }

  /** The request stands in its buffer, and its one descriptor is first in the avail ring. */
  ghost predicate RequestPosted(ram: seq<byte>, f: nat, req: seq<byte>)
    requires f + 0x400 < TWO64 && |req| <= 0x200
  {
    && ReadDesc(ram, f + 0xC0, 0) == Some(Desc(f + 0x200, |req|, 0, 0)) && PostedFirst(ram, f + 0x100)
    && f + 0x400 <= |ram| && ram[f + 0x200..f + 0x200 + |req|] == req
  }

  lemma RequestLeads<S>(d0: Device<S>, cs: seq<Command>, d: Device<S>, f: nat, req: seq<byte>, room: nat)
    returns (ram': seq<byte>)
    requires f + 0x400 <= |d.ram| < TWO64 && room < TWO32 && |req| <= 0x200 && BufferPosted(d.ram, f, room)
    requires Leads(d0, cs, d)
    ensures Leads(d0, cs + Request(f, req), d.(ram := ram'))
    ensures |ram'| == |d.ram| && BufferPosted(ram', f, room) && RequestPosted(ram', f, req)
  {
    hide Leads, SameBut, BufferPosted, PostedFirst, ReadDesc, DescStores, PostStores, Le;
    var ram1 := StoreLeads(d0, cs, d, f + 0x200, req);
    BufferKept(d.ram, ram1, f, room, f + 0x200, |req|);
    var cs1, e := cs + [Store(f + 0x200, req)], d.(ram := ram1);
    var ram2 := DescStoresLead(d0, cs1, e, f + 0xC0, f + 0x200, |req|, 0);
    SameSizeBut(ram1, ram2, f + 0xC0, 16);
    BufferKept(ram1, ram2, f, room, f + 0xC0, 16);
    SliceKept(ram1, ram2, f + 0xC0, 16, f + 0x200, |req|);
    cs1, e := cs1 + DescStores(f + 0xC0, f + 0x200, |req|, 0), e.(ram := ram2);
    ram' := PostStoresLead(d0, cs1, e, f + 0x100);
    SameSizeBut(ram2, ram', f + 0x100, 6);
    BufferKept(ram2, ram', f, room, f + 0x100, 6);
    SliceKept(ram2, ram', f + 0x100, 6, f + 0x200, |req|);
    DescKept(ram2, ram', f + 0x100, 6, f + 0xC0);
    assert cs1 + PostStores(f + 0x100) == cs + Request(f, req);
  }

  /** The device as the driver finds it before its kick: set up, and with guest memory `ram`. */
  ghost function Ready<S>(d: Device<S>, f: nat, ram: seq<byte>): Device<S>
    requires f + 0x400 < TWO64
  {
    d.(ram := ram, regs := Regs(15, 1, 1, 0, 1, 1), queues := [ReceiveQueue(f), TransmitQueue(f)])
  }

  lemma PrepareLeads<S>(d: Device<S>, f: nat, req: seq<byte>, room: nat) returns (ram': seq<byte>)
    requires f + 0x400 <= |d.ram| < TWO64 && |req| <= 0x200 && room < TWO32
    ensures Leads(d, Prepare(f, req, room), Ready(d, f, ram'))
    ensures |ram'| == |d.ram| && BufferPosted(ram', f, room) && RequestPosted(ram', f, req)
  {
    hide Leads, BufferPosted, RequestPosted, ReceiveSetUp, TransmitSetUp, Request, HANDSHAKE;
    HandshakeLeads(d);
    var cs, e := HANDSHAKE, d.(regs := Regs(11, 1, 1, 0, 1, 0), queues := RESET_QUEUES);
    var ram1 := ReceiveSetUpLeads(d, cs, e, f, room);
    cs, e := cs + ReceiveSetUp(f, room), e.(ram := ram1, queues := [ReceiveQueue(f), UNUSED_QUEUE]);
    var ram2 := TransmitSetUpLeads(d, cs, e, f, room);
    cs, e := cs + TransmitSetUp(f), Ready(d, f, ram2);
    ram' := RequestLeads(d, cs, e, f, req, room);
  }

  // ---- The kick ----------------------------------------------------------------------------------

  /** Descriptors, avail rings and the request; and all of the frame before the answer. */
  ghost function Laid(f: nat): set<nat> {
    Span(f, 0x80) + Span(f + 0xC0, 0x80) + Span(f + 0x200, 0x200)
  }

  ghost function Whole(f: nat): set<nat> {
    Span(f, 0x400)
  }

  /** A ring with one head in it, and what it looks like once that is consumed. */
  lemma OneHead(ram: seq<byte>, q: Queue)
    requires q.ready && q.num == 4 && q.nextAvail == 0 && q.driver + 12 <= TWO64 && PostedFirst(ram, q.driver)
    ensures NextHead(ram, q) == Some(0) && Backlog(ram, q) == 1 && AvailHead(ram, q, 0) == Some(0)
    ensures forall usedCount: u16 :: NextHead(ram, q.(nextAvail := 1, usedCount := usedCount)) == None
  {
    hide ReadWord;
  }

  lemma InFrame(f: nat)
    ensures Laid(f) <= Whole(f)
    ensures Inside(f, 16, Laid(f)) && Inside(f + 0xC0, 16, Laid(f)) && Inside(f + 0x200, 0x200, Laid(f))
    ensures Inside(f + 0x42, 10, Laid(f)) && Outside(f + 0x82, 34, Laid(f)) && Inside(f + 0x82, 34, Whole(f))
    ensures Inside(f + 0x102, 10, Laid(f)) && Outside(f + 0x142, 34, Laid(f)) && Inside(f + 0x142, 34, Whole(f))
  {
    hide Span;
  }

  lemma RingInFrame(ram: seq<byte>, q: Queue, g: set<nat>, h: set<nat>)
    requires q.num == 4 && q.driver + 12 <= TWO64 && q.device + 36 <= |ram| <= TWO64
    requires Inside(q.driver + 2, 10, g) && Outside(q.device + 2, 34, g) && Inside(q.device + 2, 34, h)
    ensures RingsPlaced(ram, q, g, h)
  {
  }

  lemma DescInFrame(f: nat)
    requires f + 0x400 < TWO64
    ensures DescInside(f, 0, Laid(f))
  {
    hide Laid;
    InFrame(f);
  }

  lemma BufferInFrame(ram: seq<byte>, f: nat, room: nat, need: nat)
    requires f + 0x400 <= |ram| < TWO64 && room < TWO32 && BufferPosted(ram, f, room)
    ensures BufferPlaced(ram, ReceiveQueue(f), 0, need, Laid(f), Whole(f))
  {
    hide ReadDesc, PostedFirst, Laid, DescInside;
    OneHead(ram, ReceiveQueue(f));
    DescInFrame(f);
  }

  /** What the driver prepared, whatever else the device holds. */
  ghost predicate Prepared<S>(d: Device<S>, f: nat, req: seq<byte>, room: nat) {
    && f + 0x400 + room <= |d.ram| < TWO64 && room < TWO32 && |req| <= 0x200
    && d.queues == [ReceiveQueue(f), TransmitQueue(f)]
    && BufferPosted(d.ram, f, room) && RequestPosted(d.ram, f, req)
  }

  lemma OnlyFirstPosted(ram: seq<byte>, q: Queue, slot: nat)
    requires q.num == 4 && q.nextAvail == 0 && Backlog(ram, q) == 1 && Posted(ram, q, slot)
    ensures slot == 0
  {
    hide Backlog;
  }

  lemma PreparedIsLaidOut<S>(d: Device<S>, f: nat, req: seq<byte>, room: nat)
    requires Prepared(d, f, req, room)
    ensures Layout(d.ram, d.queues, Laid(f), Whole(f))
  {
    hide BufferPlaced, RingsPlaced, Laid, Whole, Inside, Outside, Posted, ReadDesc, PostedFirst, Backlog;
    InFrame(f);
    RingInFrame(d.ram, ReceiveQueue(f), Laid(f), Whole(f));
    RingInFrame(d.ram, TransmitQueue(f), Laid(f), Whole(f));
    OneHead(d.ram, ReceiveQueue(f));
    forall slot: nat, need: nat | slot < 4 && Posted(d.ram, ReceiveQueue(f), slot)
      ensures BufferPlaced(d.ram, ReceiveQueue(f), slot, need, Laid(f), Whole(f))
    {
      OnlyFirstPosted(d.ram, ReceiveQueue(f), slot);
      BufferInFrame(d.ram, f, room, need);
    }
  }

  lemma PostedFirstSame(ram: seq<byte>, ram': seq<byte>, f: nat, room: nat)
    requires f + 0x400 <= |ram| < TWO64 && room < TWO32 && BufferPosted(ram, f, room) && SameOn(ram, ram', Laid(f))
    ensures BufferPosted(ram', f, room)
  {
    hide ReadDesc, ReadWord, Laid, SameOn, DescInside;
    InFrame(f);
    DescInFrame(f);
    DescSame(ram, ram', f, 0, Laid(f));
    ReadsSame(ram, ram', Laid(f), f + 0x44, 2);
    ReadsSame(ram, ram', Laid(f), f + 0x42, 2);
  }

  // ---- Transmission ------------------------------------------------------------------------------

  lemma RequestGathered<S>(d: Device<S>, f: nat, req: seq<byte>, room: nat)
    requires Prepared(d, f, req, room)
    ensures NextHead(d.ram, TransmitQueue(f)) == Some(0) && AvailHead(d.ram, TransmitQueue(f), 0) == Some(0)
    ensures Gather(d.ram, f + 0xC0, 0, 4) == Some(req)
  {
    hide ReadDesc, PostedFirst;
    OneHead(d.ram, TransmitQueue(f));
  }

  lemma PassSends<S>(d: Device<S>, head: u16, bytes: seq<byte>)
    requires NextHead(d.ram, d.queues[TXQ]) == Some(head)
    requires Gather(d.ram, d.queues[TXQ].desc, head, d.queues[TXQ].num) == Some(bytes)
    ensures var p := TxPass(d);
            && p.again && p.dev.outbuf == d.outbuf + d.peer.Push(bytes).1 && p.dev.log.sent == d.log.sent + bytes
  {
    hide Gather, NextHead, Write;
  }

  /** The request went to the peer, its chain is used, and the posted buffer is as it was. */
  ghost predicate Sent<S>(d: Device<S>, d1: Device<S>, f: nat, req: seq<byte>)
    requires f + 0x400 < TWO64
  {
    && d1.log.sent == d.log.sent + req && d1.outbuf == d.outbuf + d.peer.Push(req).1
    && d1.queues[RXQ] == ReceiveQueue(f) && |d1.ram| == |d.ram| && SameOn(d.ram, d1.ram, Laid(f))
    && d1.queues[TXQ] == TransmitQueue(f).(nextAvail := 1, usedCount := 1)
    && Layout(d1.ram, d1.queues, Laid(f), Whole(f))
    && UsedAt(d1.ram, TransmitQueue(f), 0) == Some(Used(0, 0)) && ReadWord(d1.ram, f + 0x142, 2) == Some(1)
  }

  lemma RequestIsSent<S>(d: Device<S>, f: nat, req: seq<byte>, room: nat)
    requires Prepared(d, f, req, room)
    ensures TxEnds(d) && Sent(d, TxLoop(d), f, req)
  {
    hide TxEnds, TxLoop, TxPass, Layout, Laid, Whole, BufferPosted, RequestPosted, NextHead, Gather, SameOn, Peer.Push,
      UsedAt, ReadWord;
    PreparedIsLaidOut(d, f, req, room);
    RequestGathered(d, f, req, room);
    PassSends(d, 0, req);
    TxPassAdvances(d, Laid(f), Whole(f));
    var d1 := TxPass(d).dev;
    SameSizeOn(d.ram, d1.ram, Laid(f));
    UsedEntry(d, d1, TXQ, d1.log.served[|d.log.served|]);
    PostedOnce(d, f, req, room, d1);
    TxLoopUnfolds(d);
    TxLoopUnfolds(d1);
  }

  lemma SameSizeOn(ram: seq<byte>, ram': seq<byte>, g: set<nat>)
    requires SameOn(ram, ram', g)
    ensures |ram'| == |ram|
  {
  }

  /** The first chain a queue of size 4 serves. */
  lemma UsedEntry<S>(d: Device<S>, d': Device<S>, k: nat, u: Used)
    requires k < 2 && Advanced(d, d', k, u)
    requires var q := d.queues[k]; q.num == 4 && q.nextAvail == 0 && q.usedCount == 0
                                   && q.device + 36 <= TWO64 && AvailHead(d.ram, q, 0) == Some(0)
    ensures var q := d.queues[k];
            && d'.queues[k] == q.(nextAvail := 1, usedCount := 1) && d'.queues[1 - k] == d.queues[1 - k] && u.id == 0
            && UsedAt(d'.ram, q, 0) == Some(u) && ReadWord(d'.ram, q.device + 2, 2) == Some(1)
  {
    hide AvailHead, UsedAt, ReadWord;
  }

  lemma PostedOnce<S>(d: Device<S>, f: nat, req: seq<byte>, room: nat, d1: Device<S>)
    requires Prepared(d, f, req, room) && SameOn(d.ram, d1.ram, Laid(f))
    requires d1.queues[TXQ] == TransmitQueue(f).(nextAvail := 1, usedCount := 1)
    ensures !TxPass(d1).again
  {
    hide ReadDesc, ReadWord, Laid, SameOn, Gather, PublishUsed, BufferPosted;
    InFrame(f);
    ReadsSame(d.ram, d1.ram, Laid(f), f + 0x104, 2);
    ReadsSame(d.ram, d1.ram, Laid(f), f + 0x102, 2);
    OneHead(d1.ram, TransmitQueue(f));
  }

  // ---- Reception ---------------------------------------------------------------------------------

  function Least(a: nat, b: nat): nat {
    if a < b then a else b
  }

  /** As much of the queue as there is room for stands in the buffer, and its chain is used; the rest waits. */
  ghost predicate Received<S>(d1: Device<S>, d2: Device<S>, f: nat, room: nat)
    requires f + 0x400 + room <= |d1.ram| < TWO64 && d1.outbuf != []
  {
    var n := Least(|d1.outbuf|, room);
    && |d2.ram| == |d1.ram| && d2.ram[f + 0x400..f + 0x400 + n] == d1.outbuf[..n] && d2.outbuf == d1.outbuf[n..]
    && UsedAt(d2.ram, ReceiveQueue(f), 0) == Some(Used(0, n)) && ReadWord(d2.ram, f + 0x82, 2) == Some(1)
  }

  lemma BufferPlanned(ram: seq<byte>, f: nat, room: nat, need: nat)
    requires f + 0x400 + room <= |ram| < TWO64 && room < TWO32 && BufferPosted(ram, f, room) && need > 0
    ensures var segs := [Segment(f + 0x400, Least(need, room))];
            Plan(ram, f, 0, 4, need) == Some(segs) && Disjoint(segs) && Total(segs) == Least(need, room)
  {
    hide ReadDesc, PostedFirst;
    var segs := [Segment(f + 0x400, Least(need, room))];
    assert PlanOne(ram, f, 0, need) == Some((segs[0], None));
    assert segs[1..] == [] && Total([]) == 0;
  }

  lemma CollectOne(ram: seq<byte>, at: nat, n: nat, segs: seq<Segment>)
    requires at + n <= |ram| && segs == [Segment(at, n)]
    ensures InRam(ram, segs) && Collect(ram, segs) == ram[at..at + n]
  {
    assert segs[1..] == [];
    assert Collect(ram, segs[1..]) == [];
  }

  lemma AnswerIsReceived<S>(d1: Device<S>, f: nat, room: nat)
    requires f + 0x400 + room <= |d1.ram| < TWO64 && room < TWO32 && BufferPosted(d1.ram, f, room)
    requires d1.queues[RXQ] == ReceiveQueue(f) && Layout(d1.ram, d1.queues, Laid(f), Whole(f)) && d1.outbuf != []
    ensures RxEnds(d1) && Received(d1, RxLoop(d1), f, room) && RxLoop(d1).log.sent == d1.log.sent
    ensures Usable(d1.queues[TXQ]) ==> SameUsed(d1.ram, RxLoop(d1).ram, d1.queues[TXQ])
  {
    hide RxEnds, RxLoop, RxPass, Layout, Laid, Whole, BufferPosted, NextHead, Plan, Collect, UsedAt, ReadWord, Disjoint,
      Total, InRam, AvailHead;
    HeadPosted(d1.ram, f, room);
    var n := Least(|d1.outbuf|, room);
    BufferPlanned(d1.ram, f, room, |d1.outbuf|);
    WalkFills(d1, f, n);
    RxPassAdvances(d1, Laid(f), Whole(f));
    var d2 := RxPass(d1).dev;
    var walk := d2.log.walks[|d1.log.walks|];
    SameSizeOn(d1.ram, d2.ram, Laid(f));
    CollectOne(d2.ram, f + 0x400, n, [Segment(f + 0x400, n)]);
    UsedEntry(d1, d2, RXQ, Used(walk.head, |walk.bytes| % TWO32));
    PassSendsNothing(d1);
    BufferTakenOnce(d1.ram, d2, f, room);
    RxLoopUnfolds(d1);
    RxLoopUnfolds(d2);
    assert d1.outbuf[..n] == walk.bytes && d1.outbuf[n..] == d2.outbuf;
  }

  lemma HeadPosted(ram: seq<byte>, f: nat, room: nat)
    requires f + 0x400 <= |ram| < TWO64 && room < TWO32 && BufferPosted(ram, f, room)
    ensures NextHead(ram, ReceiveQueue(f)) == Some(0) && AvailHead(ram, ReceiveQueue(f), 0) == Some(0)
  {
    hide ReadDesc, PostedFirst;
    OneHead(ram, ReceiveQueue(f));
  }

  /** The walk over the posted buffer is completed and takes `n` bytes. */
  lemma WalkFills<S>(d1: Device<S>, f: nat, n: nat)
    requires f + 0x400 < TWO64 && d1.queues[RXQ] == ReceiveQueue(f) && d1.outbuf != []
    requires Layout(d1.ram, d1.queues, Laid(f), Whole(f)) && NextHead(d1.ram, ReceiveQueue(f)) == Some(0)
    requires var segs := [Segment(f + 0x400, n)];
             Plan(d1.ram, f, 0, 4, |d1.outbuf|) == Some(segs) && Disjoint(segs) && Total(segs) == n
    ensures var d2 := RxPass(d1).dev;
            && RxPass(d1).again && |d2.log.walks| == |d1.log.walks| + 1
            && var walk := d2.log.walks[|d1.log.walks|];
               && |walk.bytes| == n && walk.bytes + d2.outbuf == d1.outbuf
               && InRam(d2.ram, [Segment(f + 0x400, n)]) && Collect(d2.ram, [Segment(f + 0x400, n)]) == walk.bytes
  {
    hide RxPass, Plan, BufferPlaced, WalkGuarded, RingsPlaced, NextHead, Total, Collect, Disjoint, InRam, Laid, Whole;
    RxWalkIsGuarded(d1, 0, Laid(f), Whole(f));
    RxPassFollowsPlan(d1, 0, Laid(f), Whole(f));
  }

  lemma PassSendsNothing<S>(d: Device<S>)
    ensures RxPass(d).dev.log.sent == d.log.sent
  {
    hide NextHead, Scatter, PublishUsed;
  }

  lemma BufferTakenOnce<S>(ram: seq<byte>, d2: Device<S>, f: nat, room: nat)
    requires f + 0x400 <= |ram| < TWO64 && room < TWO32 && BufferPosted(ram, f, room) && SameOn(ram, d2.ram, Laid(f))
    requires d2.queues[RXQ] == ReceiveQueue(f).(nextAvail := 1, usedCount := 1)
    ensures RxPass(d2) == Pass(d2, false)
  {
    hide ReadDesc, PostedFirst, Laid, SameOn, NextHead, Scatter, PublishUsed;
    PostedFirstSame(ram, d2.ram, f, room);
    OneHead(d2.ram, ReceiveQueue(f));
  }

  // ---- The exchange --------------------------------------------------------------------------------

  /** After the exchange: the device is driven, the peer was sent exactly the request, the request's chain is used,
      the buffer holds as much as it has room for of what waited before and of the answer, in order, and the rest
      waits; unless there was nothing at all to receive, the buffer's chain is used and its length written. */
  ghost predicate Exchanged<S>(d: Device<S>, d2: Device<S>, f: nat, req: seq<byte>, room: nat)
    requires f + 0x400 + room <= |d.ram| < TWO64
  {
    var stream := d.outbuf + d.peer.Push(req).1;
    var n := Least(|stream|, room);
    && d2.regs.status == 15 && d2.log.sent == d.log.sent + req
    && |d2.ram| == |d.ram| && d2.ram[f + 0x400..f + 0x400 + n] == stream[..n] && d2.outbuf == stream[n..]
    && ReadWord(d2.ram, f + 0x142, 2) == Some(1)
    && ReadWord(d2.ram, f + 0x144, 4) == Some(0) && ReadWord(d2.ram, f + 0x148, 4) == Some(0)
    && (stream != [] ==>
          && ReadWord(d2.ram, f + 0x82, 2) == Some(1)
          && ReadWord(d2.ram, f + 0x84, 4) == Some(0) && ReadWord(d2.ram, f + 0x88, 4) == Some(n))
  }

  lemma UsedWords(ram: seq<byte>, q: Queue, u: Used)
    requires q.num == 4 && q.device + 36 <= TWO64 && UsedAt(ram, q, 0) == Some(u)
    ensures ReadWord(ram, q.device + 4, 4) == Some(u.id) && ReadWord(ram, q.device + 8, 4) == Some(u.len)
  {
    hide ReadWord;
  }

  lemma KickExchanges<S>(d: Device<S>, f: nat, req: seq<byte>, room: nat)
    requires Prepared(d, f, req, room) && d.regs.status == 15
    ensures KickEnds(d, 1) && Exchanged(d, Notify(d, 1), f, req, room)
  {
    hide TxEnds, RxEnds, TxLoop, RxLoop, Layout, Laid, Whole, BufferPosted, RequestPosted, UsedAt, ReadWord, SameOn,
      Peer.Push;
    RequestIsSent(d, f, req, room);
    var d1 := TxLoop(d);
    UsedWords(d1.ram, TransmitQueue(f), Used(0, 0));
    if d1.outbuf == [] {
      assert RxPass(d1) == Pass(d1, false);
      RxLoopUnfolds(d1);
    } else {
      PostedFirstSame(d.ram, d1.ram, f, room);
      AnswerIsReceived(d1, f, room);
      UsedWords(RxLoop(d1).ram, ReceiveQueue(f), Used(0, Least(|d1.outbuf|, room)));
      UsedKept(d1.ram, RxLoop(d1).ram, f);
    }
    KickKeepsSetUp(d, 1);
  }

  lemma UsedKept(ram: seq<byte>, ram': seq<byte>, f: nat)
    requires f + 0x400 <= |ram| < TWO64 && SameUsed(ram, ram', TransmitQueue(f).(nextAvail := 1, usedCount := 1))
    ensures ReadWord(ram', f + 0x142, 2) == ReadWord(ram, f + 0x142, 2)
    ensures ReadWord(ram', f + 0x144, 4) == ReadWord(ram, f + 0x144, 4)
    ensures ReadWord(ram', f + 0x148, 4) == ReadWord(ram, f + 0x148, 4)
  {
    hide FromLe;
    assert ram'[f + 0x142..f + 0x144] == ram[f + 0x142..f + 0x144];
    assert ram'[f + 0x144..f + 0x148] == ram[f + 0x144..f + 0x148];
    assert ram'[f + 0x148..f + 0x14C] == ram[f + 0x148..f + 0x14C];
  }

  /** The driver's exchange, from any state of the device, for any request, any peer and any room for the answer. */
  lemma ExchangeDelivers<S>(d: Device<S>, f: nat, req: seq<byte>, room: nat)
    requires f + 0x400 + room <= |d.ram| < TWO64 && |req| <= 0x200 && room < TWO32
    ensures AllEnd(d, Exchange(f, req, room))
    ensures Exchanged(d, Session(d, Exchange(f, req, room)), f, req, room)
  {
    hide AllEnd, Session, KickEnds, Notify, Prepare, Exchanged, BufferPosted, RequestPosted;
    var ram' := PrepareLeads(d, f, req, room);
    var e := Ready(d, f, ram');
    KickExchanges(e, f, req, room);
    SameExchange(d, e, Notify(e, 1), f, req, room);
    Step(d, Prepare(f, req, room), e, WriteRegister(0x050, 1));
  }

  lemma SameExchange<S>(d: Device<S>, e: Device<S>, d2: Device<S>, f: nat, req: seq<byte>, room: nat)
    requires f + 0x400 + room <= |d.ram| < TWO64 && |e.ram| == |d.ram|
    requires e.outbuf == d.outbuf && e.peer == d.peer && e.log == d.log && Exchanged(e, d2, f, req, room)
    ensures Exchanged(d, d2, f, req, room)
  {
    hide ReadWord, Peer.Push;
  }

  /** With a frame server as the peer, nothing waiting and a frame as the request, the reply to that frame stands in
      the buffer as far as there is room. */
  lemma ExchangeAnswersFrame<D>(d: Device<InferPeer.Server<D>>, serve: (D, InferWire.Frame) -> (D, seq<byte>), inner: D,
                                f: nat, frame: InferWire.Frame, room: nat)
    requires d.peer == InferPeer.FramedPeer(serve, InferPeer.Server([], inner)) && d.outbuf == []
    requires frame.Encodable() && |InferWire.FrameBytes(frame)| <= 0x200
    requires f + 0x400 + room <= |d.ram| < TWO64 && room < TWO32
    ensures var cs := Exchange(f, InferWire.FrameBytes(frame), room);
            var reply := serve(inner, frame).1;
            var n := Least(|reply|, room);
            && AllEnd(d, cs) && |Session(d, cs).ram| == |d.ram|
            && Session(d, cs).ram[f + 0x400..f + 0x400 + n] == reply[..n] && Session(d, cs).outbuf == reply[n..]
  {
    hide AllEnd, Session, Exchange, Exchanged, InferWire.FrameBytes, InferPeer.FramedPeer, Peer.Push;
    var req := InferWire.FrameBytes(frame);
    ExchangeDelivers(d, f, req, room);
    FrameIsAnswered(serve, inner, frame);
    ExchangedFromNothing(d, Session(d, Exchange(f, req, room)), f, req, room, serve(inner, frame).1);
  }

  lemma ExchangedFromNothing<S>(d: Device<S>, d2: Device<S>, f: nat, req: seq<byte>, room: nat, reply: seq<byte>)
    requires f + 0x400 + room <= |d.ram| < TWO64 && Exchanged(d, d2, f, req, room)
    requires d.outbuf == [] && reply == d.peer.Push(req).1
    ensures var n := Least(|reply|, room);
            |d2.ram| == |d.ram| && d2.ram[f + 0x400..f + 0x400 + n] == reply[..n] && d2.outbuf == reply[n..]
  {
    hide ReadWord, Peer.Push;
    assert [] + reply == reply;
  }

  lemma FrameIsAnswered<D>(serve: (D, InferWire.Frame) -> (D, seq<byte>), inner: D, frame: InferWire.Frame)
    requires frame.Encodable()
    ensures InferPeer.FramedPeer(serve, InferPeer.Server([], inner)).Push(InferWire.FrameBytes(frame)).1
         == serve(inner, frame).1
  {
    hide InferWire.FrameBytes, InferWire.Parse, InferPeer.Answers, Peer.Push, InferPeer.FramedPeer;
    var req, fs := InferWire.FrameBytes(frame), [frame];
    InferWire.EmptyWaits();
    InferPeer.PeerAnswersFrames(serve, InferPeer.Server([], inner), req);
    assert [] + req == req;
    OneEncoded(frame, fs);
    InferWire.ParseOfFrames(fs);
    InferPeer.AnswersToFrames(serve, inner, fs);
    OneReply(serve, inner, frame, fs);
  }

  lemma OneEncoded(frame: InferWire.Frame, fs: seq<InferWire.Frame>)
    requires fs == [frame]
    ensures InferWire.Encoded(fs) == InferWire.FrameBytes(frame)
  {
    hide InferWire.FrameBytes;
    assert fs[1..] == [];
    assert InferWire.FrameBytes(frame) + [] == InferWire.FrameBytes(frame);
  }

  lemma OneReply<D>(serve: (D, InferWire.Frame) -> (D, seq<byte>), inner: D, frame: InferWire.Frame, fs: seq<InferWire.Frame>)
    requires fs == [frame]
    ensures InferPeer.RepliesTo(serve, inner, fs).1 == serve(inner, frame).1
  {
    assert fs[1..] == [];
    assert InferPeer.RepliesTo(serve, serve(inner, frame).0, fs[1..]).1 == [];
    assert serve(inner, frame).1 + [] == serve(inner, frame).1;
  }
}

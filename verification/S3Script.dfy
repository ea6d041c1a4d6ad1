/**
 The S3 resume script: SaveRuntimeScriptTable compiles the register state at suspend into a list of PCI
 configuration writes, and the boot script executor replays that list on resume. A message-bus register
 is written by storing its value in the MDR register and then a command in the MCR register.
 */
module S3Script {
  import Bytes

  datatype PciReg = PciReg(bus: nat, dev: nat, fn: nat, offset: nat) {
    predicate Valid() {
      bus < 0x100 && dev < 0x20 && fn < 8 && offset < 0x1000
    }
  }

  datatype MsgReg = MsgReg(port: bv32, reg: bv32) {
    predicate Valid() {
      port < 0x100 && reg < 0x100
    }
  }

  /** Registers as the script sees them. A register that is in no map reads as 0. scrubResumes counts
      the scrub reactivation commands that have been issued. */
  datatype Machine = Machine(pci: map<PciReg, bv32>, msg: map<MsgReg, bv32>, io: map<nat, bv32>, scrubResumes: nat)

  function Get<K>(m: map<K, bv32>, k: K): bv32 {
    if k in m then m[k] else 0
  }

  /** What the SoC headers define. IMR registers have stride 4 with L, H, RM and WM at 0 to 3. */
  datatype Soc = Soc(
    isQuark2: bool, mdr: nat, mcr: nat, writeOpcode: bv32, resumeOpcode: bv32, memoryManager: bv32, imr0: bv32,
    imrLock: bv32, imrEn: bv32, allAccess: bv32, rmuPort: bv32, scrubConfig: bv32, scrubActive: bv32, smie: nat)
  {
    predicate Valid() {
      && mdr < 0x100 && mcr < 0x100 && mdr != mcr
      && writeOpcode < 0x100 && resumeOpcode < 0x100 && writeOpcode != resumeOpcode
      && memoryManager < 0x100 && rmuPort < 0x100
      && imr0 <= 0xE0 && imr0 & 3 == 0
    }

    function Mdr(): PciReg { PciReg(0, 0, 0, mdr) }

    function Mcr(): PciReg { PciReg(0, 0, 0, mcr) }
  }

  // ---- Addresses and commands ----

  /** PCI_LIB_ADDRESS. */
  function PciLibAddress(r: PciReg): nat {
    r.offset % 0x1000 + r.fn % 8 * 0x1000 + r.dev % 0x20 * 0x8000 + r.bus % 0x100 * 0x10_0000
  }

  /** PCILIB_TO_COMMON_ADDRESS. */
  function CommonAddress(a: nat): nat {
    a / 0x10_0000 % 0x100 * 0x100_0000 + a / 0x8000 % 0x20 * 0x1_0000 + a / 0x1000 % 8 * 0x100 + a % 0x1000
  }

  /** The register that the executor reads from a script address. */
  function AddressedReg(a: nat): PciReg {
    PciReg(a / 0x100_0000 % 0x100, a / 0x1_0000 % 0x100, a / 0x100 % 0x100, a % 0x100)
  }

  function ScriptAddress(r: PciReg): nat {
    CommonAddress(PciLibAddress(r))
  }

  lemma AddressRoundTrip(r: PciReg)
    requires r.Valid() && r.offset < 0x100
    ensures AddressedReg(ScriptAddress(r)) == r
  {
    hide PciLibAddress, CommonAddress;
    CommonOfLib(r);
    LowFields(ScriptAddress(r), r);
    HighFields(ScriptAddress(r), r);
  }

  lemma LowFields(a: nat, r: PciReg)
    requires r.Valid() && r.offset < 0x100
    requires a == r.bus * 0x100_0000 + r.dev * 0x1_0000 + r.fn * 0x100 + r.offset
    ensures a % 0x100 == r.offset && a / 0x100 % 0x100 == r.fn
  {
    Bytes.DivModUnique(a, 0x100, r.fn + r.dev * 0x100 + r.bus * 0x1_0000, r.offset);
    Bytes.DivModUnique(a / 0x100, 0x100, r.dev + r.bus * 0x100, r.fn);
  }

  lemma HighFields(a: nat, r: PciReg)
    requires r.Valid() && r.offset < 0x100
    requires a == r.bus * 0x100_0000 + r.dev * 0x1_0000 + r.fn * 0x100 + r.offset
    ensures a / 0x1_0000 % 0x100 == r.dev && a / 0x100_0000 % 0x100 == r.bus
  {
    Bytes.DivModUnique(a, 0x1_0000, r.dev + r.bus * 0x100, r.offset + r.fn * 0x100);
    Bytes.DivModUnique(a / 0x1_0000, 0x100, r.bus, r.dev);
    Bytes.DivModUnique(a, 0x100_0000, r.bus, r.offset + r.fn * 0x100 + r.dev * 0x1_0000);
  }

  lemma CommonOfLib(r: PciReg)
    requires r.Valid()
    ensures CommonAddress(PciLibAddress(r)) == r.bus * 0x100_0000 + r.dev * 0x1_0000 + r.fn * 0x100 + r.offset
  {
    hide PciLibAddress;
    var a := PciLibAddress(r);
    LibAddressSum(r);
    Bytes.DivModUnique(a, 0x1000, r.fn + r.dev * 8 + r.bus * 0x100, r.offset);
    Bytes.DivModUnique(a, 0x8000, r.dev + r.bus * 0x20, r.offset + r.fn * 0x1000);
    Bytes.DivModUnique(a, 0x10_0000, r.bus, r.offset + r.fn * 0x1000 + r.dev * 0x8000);
    Bytes.DivModUnique(a / 0x1000, 8, r.dev + r.bus * 0x20, r.fn);
    Bytes.DivModUnique(a / 0x8000, 0x20, r.bus, r.dev);
  }

  lemma LibAddressSum(r: PciReg)
    requires r.Valid()
    ensures PciLibAddress(r) == r.offset + r.fn * 0x1000 + r.dev * 0x8000 + r.bus * 0x10_0000
  {
  }

  /** A message-bus command: opcode, port and register in the upper three bytes, all byte enables set. */
  function Command(opcode: bv32, port: bv32, reg: bv32): bv32 {
    (opcode << 24) | (port << 16) | (reg << 8) | 0xF0
  }

  function Opcode(d: bv32): bv32 { d >> 24 }

  function Target(d: bv32): MsgReg { MsgReg((d >> 16) & 0xFF, (d >> 8) & 0xFF) }

  lemma CommandRoundTrip(opcode: bv32, r: MsgReg)
    requires opcode < 0x100 && r.Valid()
    ensures Opcode(Command(opcode, r.port, r.reg)) == opcode
    ensures Target(Command(opcode, r.port, r.reg)) == r && Command(opcode, r.port, r.reg) & 0xF0 == 0xF0
  {
  }

  // ---- The script and its replay ----

  datatype Entry = PciCfgWrite(address: nat, value: bv32) | IoWrite(port: nat, value: bv32)

  /** The effect of a command that arrives in MCR: with all byte enables set a write stores the whole dword. */
  function Execute(m: Machine, soc: Soc, d: bv32): Machine {
    if Opcode(d) == soc.writeOpcode && d & 0xF0 == 0xF0 then m.(msg := m.msg[Target(d) := Get(m.pci, soc.Mdr())])
    else if Opcode(d) == soc.resumeOpcode then m.(scrubResumes := m.scrubResumes + 1)
    else m
  }

  function Step(m: Machine, soc: Soc, e: Entry): Machine {
    match e
    case IoWrite(port, value) => m.(io := m.io[port := value])
    case PciCfgWrite(address, value) =>
      var m' := m.(pci := m.pci[AddressedReg(address) := value]);
      if AddressedReg(address) == soc.Mcr() then Execute(m', soc, value) else m'
  }

  function Replay(m: Machine, soc: Soc, script: seq<Entry>): Machine
    decreases script
  {
    if script == [] then m else Replay(Step(m, soc, script[0]), soc, script[1..])
  }

  lemma ReplayAppend(m: Machine, soc: Soc, a: seq<Entry>, b: seq<Entry>)
    ensures Replay(m, soc, a + b) == Replay(Replay(m, soc, a), soc, b)
    decreases a
  {
    hide Step;
    if a == [] {
      assert a + b == b;
    } else {
      assert (a + b)[1..] == a[1..] + b;
      ReplayAppend(Step(m, soc, a[0]), soc, a[1..], b);
    }
  }

  // ---- Lists of register writes ----

  function Apply<K>(m: map<K, bv32>, ws: seq<(K, bv32)>): map<K, bv32>
    decreases ws
  {
    if ws == [] then m else Apply(m[ws[0].0 := ws[0].1], ws[1..])
  }

  ghost predicate Writes<K>(ws: seq<(K, bv32)>, k: K) {
    exists i :: 0 <= i < |ws| && ws[i].0 == k
  }

  lemma {:induction false} ApplyOther<K>(m: map<K, bv32>, ws: seq<(K, bv32)>, k: K)
    requires !Writes(ws, k)
    ensures Get(Apply(m, ws), k) == Get(m, k)
    decreases ws
  {
    if ws != [] {
      assert ws[0].0 != k;
      assert forall i :: 0 <= i < |ws[1..]| ==> ws[1..][i] == ws[i + 1];
      ApplyOther(m[ws[0].0 := ws[0].1], ws[1..], k);
    }
  }

  /** A register that is written, always with the same value, ends with that value. */
  lemma {:induction false} ApplyUniform<K>(m: map<K, bv32>, ws: seq<(K, bv32)>, k: K, v: bv32)
    requires forall i :: 0 <= i < |ws| && ws[i].0 == k ==> ws[i].1 == v
    requires Writes(ws, k) || Get(m, k) == v
    ensures Get(Apply(m, ws), k) == v
    decreases ws
  {
    if ws != [] {
      assert forall i :: 0 <= i < |ws[1..]| ==> ws[1..][i] == ws[i + 1];
      if ws[0].0 != k && Writes(ws, k) {
        var i :| 0 <= i < |ws| && ws[i].0 == k;
        assert ws[1..][i - 1].0 == k;
      }
      ApplyUniform(m[ws[0].0 := ws[0].1], ws[1..], k, v);
    }
  }

  /** The entries that write register r through the message bus. */
  function MsgPair(soc: Soc, w: (MsgReg, bv32)): seq<Entry> {
    [PciCfgWrite(ScriptAddress(soc.Mdr()), w.1),
     PciCfgWrite(ScriptAddress(soc.Mcr()), Command(soc.writeOpcode, w.0.port, w.0.reg))]
  }

  function MsgEntries(soc: Soc, ws: seq<(MsgReg, bv32)>): seq<Entry> {
    if ws == [] then [] else MsgPair(soc, ws[0]) + MsgEntries(soc, ws[1..])
  }

  function PciEntries(ws: seq<(PciReg, bv32)>): seq<Entry> {
    if ws == [] then [] else [PciCfgWrite(ScriptAddress(ws[0].0), ws[0].1)] + PciEntries(ws[1..])
  }

  /** The two entries of a message write do that write and touch no other register but MDR and MCR. */
  lemma ReplayPair(m: Machine, soc: Soc, w: (MsgReg, bv32))
    requires soc.Valid() && w.0.Valid()
    ensures var m' := Replay(m, soc, MsgPair(soc, w));
            && m'.msg == m.msg[w.0 := w.1]
            && m'.io == m.io && m'.scrubResumes == m.scrubResumes
            && forall r :: r != soc.Mdr() && r != soc.Mcr() ==> Get(m'.pci, r) == Get(m.pci, r)
    ensures Replay(m, soc, MsgPair(soc, w)[..1]).(pci := m.pci) == m
    ensures var m1 := Replay(m, soc, MsgPair(soc, w)[..1]);
            forall r :: r != soc.Mdr() ==> Get(m1.pci, r) == Get(m.pci, r)
  {
    hide ScriptAddress, AddressedReg, Command, Opcode, Target;
    AddressRoundTrip(soc.Mdr());
    AddressRoundTrip(soc.Mcr());
    CommandRoundTrip(soc.writeOpcode, w.0);
    var es := MsgPair(soc, w);
    var m1 := Step(m, soc, es[0]);
    assert es == [es[0]] + [es[1]] && es[..1] == [es[0]];
    ReplayAppend(m, soc, [es[0]], [es[1]]);
    ReplayOne(m, soc, es[0]);
    ReplayOne(m1, soc, es[1]);
  }

  lemma ReplayOne(m: Machine, soc: Soc, e: Entry)
    ensures Replay(m, soc, [e]) == Step(m, soc, e)
  {
    assert [e][1..] == [];
  }

  lemma {:induction false} ReplayMsg(m: Machine, soc: Soc, ws: seq<(MsgReg, bv32)>)
    requires soc.Valid() && forall i :: 0 <= i < |ws| ==> ws[i].0.Valid()
    ensures var m' := Replay(m, soc, MsgEntries(soc, ws));
            && m'.msg == Apply(m.msg, ws)
            && m'.io == m.io && m'.scrubResumes == m.scrubResumes
            && forall r :: r != soc.Mdr() && r != soc.Mcr() ==> Get(m'.pci, r) == Get(m.pci, r)
    decreases ws
  {
    hide MsgPair, Step, Get;
    if ws != [] {
      ReplayPair(m, soc, ws[0]);
      ReplayAppend(m, soc, MsgPair(soc, ws[0]), MsgEntries(soc, ws[1..]));
      ReplayMsg(Replay(m, soc, MsgPair(soc, ws[0])), soc, ws[1..]);
    }
  }

  lemma {:induction false} MsgEntriesLength(soc: Soc, ws: seq<(MsgReg, bv32)>)
    ensures |MsgEntries(soc, ws)| == 2 * |ws|
    decreases ws
  {
    if ws != [] {
      MsgEntriesLength(soc, ws[1..]);
    }
  }

  /** After any number of entries of a list of message writes, the message bus has seen exactly the
      writes that are complete. */
  lemma {:induction false} ReplayMsgPrefix(m: Machine, soc: Soc, ws: seq<(MsgReg, bv32)>, n: nat)
    requires soc.Valid() && forall i :: 0 <= i < |ws| ==> ws[i].0.Valid()
    requires n <= 2 * |ws|
    ensures n <= |MsgEntries(soc, ws)|
    ensures Replay(m, soc, MsgEntries(soc, ws)[..n]).msg == Apply(m.msg, ws[..n / 2])
    decreases ws
  {
    hide MsgPair, Step, Get;
    MsgEntriesLength(soc, ws);
    var es := MsgEntries(soc, ws);
    if n >= 2 {
      var pair, rest := MsgPair(soc, ws[0]), MsgEntries(soc, ws[1..]);
      assert |pair| == 2 by { MsgEntriesLength(soc, ws[1..]); }
      ReplayPair(m, soc, ws[0]);
      assert es[..n] == pair + rest[..n - 2];
      ReplayAppend(m, soc, pair, rest[..n - 2]);
      ReplayMsgPrefix(Replay(m, soc, pair), soc, ws[1..], n - 2);
      assert ws[..n / 2][1..] == ws[1..][..(n - 2) / 2];
    } else if n == 1 {
      MsgEntriesLength(soc, ws[1..]);
      ReplayPair(m, soc, ws[0]);
      assert es[..1] == MsgPair(soc, ws[0])[..1];
    }
  }

  lemma {:induction false} ReplayPci(m: Machine, soc: Soc, ws: seq<(PciReg, bv32)>)
    requires soc.Valid()
    requires forall i :: 0 <= i < |ws| ==> ws[i].0.Valid() && ws[i].0.offset < 0x100 && ws[i].0 != soc.Mcr()
    ensures Replay(m, soc, PciEntries(ws)) == m.(pci := Apply(m.pci, ws))
    decreases ws
  {
    hide ScriptAddress, AddressedReg;
    if ws != [] {
      AddressRoundTrip(ws[0].0);
      ReplayPci(m.(pci := m.pci[ws[0].0 := ws[0].1]), soc, ws[1..]);
    }
  }

  lemma {:induction false} PciEntriesTake(ws: seq<(PciReg, bv32)>, n: nat)
    requires n <= |ws|
    ensures |PciEntries(ws)| == |ws|
    ensures PciEntries(ws)[..n] == PciEntries(ws[..n])
    decreases ws
  {
    if ws != [] {
      PciEntriesTake(ws[1..], if n == 0 then 0 else n - 1);
      if n > 0 {
        assert ws[..n][1..] == ws[1..][..n - 1];
      }
    }
  }

  lemma {:induction false} PciEntriesAppend(a: seq<(PciReg, bv32)>, b: seq<(PciReg, bv32)>)
    ensures PciEntries(a + b) == PciEntries(a) + PciEntries(b)
    decreases a
  {
    hide ScriptAddress;
    if a == [] {
      assert a + b == b;
    } else {
      assert (a + b)[1..] == a[1..] + b;
      PciEntriesAppend(a[1..], b);
    }
  }

  // ---- The two tables ----

  /** One PCI_DEVICE with its PCI_REG_MASK: bit b of mask byte g selects the dword at 32 * g + 4 * b. */
  datatype PciDevice = PciDevice(bus: bv8, dev: bv8, fn: bv8, mask: seq<bv8>) {
    predicate Valid() {
      bus != 0xFF && dev < 0x20 && fn < 8 && |mask| == 8
    }
  }

  /** Mask bit number b. */
  function Bit(b: nat): bv8
    requires b < 8
  {
    [0x01, 0x02, 0x04, 0x08, 0x10, 0x20, 0x40, 0x80][b]
  }

  predicate Selected(d: PciDevice, i: nat)
    requires d.Valid() && i < 64
  {
    d.mask[i / 8] & Bit(i % 8) != 0
  }

  function DeviceReg(d: PciDevice, i: nat): PciReg {
    PciReg(d.bus as nat, d.dev as nat, d.fn as nat, 4 * i)
  }

  /** A device whose vendor id does not read as 0xFFFF. */
  predicate Present(m: Machine, d: PciDevice) {
    Get(m.pci, DeviceReg(d, 0)) & 0xFFFF != 0xFFFF
  }

  /** The writes for the dwords from number i on. */
  function DeviceWrites(m: Machine, d: PciDevice, i: nat): seq<(PciReg, bv32)>
    requires d.Valid() && i <= 64
    decreases 64 - i
  {
    if i == 64 then []
    else (if Selected(d, i) then [(DeviceReg(d, i), Get(m.pci, DeviceReg(d, i)))] else []) + DeviceWrites(m, d, i + 1)
  }

  ghost predicate ValidDevices(ds: seq<PciDevice>) {
    forall i :: 0 <= i < |ds| ==> ds[i].Valid()
  }

  ghost function PciWrites(m: Machine, ds: seq<PciDevice>): seq<(PciReg, bv32)>
    requires ValidDevices(ds)
    decreases ds
  {
    if ds == [] then []
    else (if Present(m, ds[0]) then DeviceWrites(m, ds[0], 0) else []) + PciWrites(m, ds[1..])
  }

  /** The mask table selects this register, and its device is present. */
  ghost predicate Saved(m: Machine, ds: seq<PciDevice>, r: PciReg)
    requires ValidDevices(ds)
  {
    exists k, i :: 0 <= k < |ds| && 0 <= i < 64 && Present(m, ds[k]) && Selected(ds[k], i) && r == DeviceReg(ds[k], i)
  }

  /** No mask selects the MCR register, whose restoration would issue a command. */
  ghost predicate NoCommandSaved(ds: seq<PciDevice>, soc: Soc)
    requires ValidDevices(ds)
  {
    forall k, i :: 0 <= k < |ds| && 0 <= i < 64 && Selected(ds[k], i) ==> DeviceReg(ds[k], i) != soc.Mcr()
  }

  predicate InImrRange(soc: Soc, r: MsgReg)
    requires soc.Valid()
  {
    r.port == soc.memoryManager && soc.imr0 <= r.reg <= soc.imr0 + 31
  }

  /** IMRxL. */
  predicate IsImrLow(soc: Soc, r: MsgReg)
    requires soc.Valid()
  {
    InImrRange(soc, r) && r.reg & 3 == 0
  }

  /** IMRxH. */
  predicate IsImrHigh(soc: Soc, r: MsgReg)
    requires soc.Valid()
  {
    InImrRange(soc, r) && r.reg & 3 == 1
  }

  /** IMRxRM or IMRxWM; the code's lower limit is IMR0RM. */
  predicate IsImrMask(soc: Soc, r: MsgReg)
    requires soc.Valid()
  {
    r.port == soc.memoryManager && soc.imr0 + 2 <= r.reg <= soc.imr0 + 31 && r.reg & 3 >= 2
  }

  function Clear(v: bv32, bits: bv32): bv32 { v & !bits }

  predicate IsClear(v: bv32, bits: bv32) { v & bits == 0 }

  lemma ClearIsClear(v: bv32, bits: bv32)
    ensures IsClear(Clear(v, bits), bits)
    ensures Clear(Clear(v, bits), bits) == Clear(v, bits)
  {
  }

  function FirstValue(soc: Soc, r: MsgReg, v: bv32): bv32
    requires soc.Valid()
  {
    var v1 := if IsImrLow(soc, r) then (if soc.isQuark2 then Clear(Clear(v, soc.imrLock), soc.imrEn) else Clear(v, soc.imrLock)) else v;
    if IsImrMask(soc, r) then soc.allAccess else v1
  }

  predicate InSecondPass(soc: Soc, r: MsgReg)
    requires soc.Valid()
  {
    if soc.isQuark2 then IsImrLow(soc, r) else IsImrMask(soc, r)
  }

  function SecondValue(soc: Soc, v: bv32): bv32 {
    if soc.isQuark2 then Clear(v, soc.imrLock) else v
  }

  function FirstPass(m: Machine, soc: Soc, rs: seq<MsgReg>): seq<(MsgReg, bv32)>
    requires soc.Valid()
  {
    if rs == [] then []
    else [(rs[0], FirstValue(soc, rs[0], Get(m.msg, rs[0])))] + FirstPass(m, soc, rs[1..])
  }

  function SecondPass(m: Machine, soc: Soc, rs: seq<MsgReg>): seq<(MsgReg, bv32)>
    requires soc.Valid()
  {
    if rs == [] then []
    else (if InSecondPass(soc, rs[0]) then [(rs[0], SecondValue(soc, Get(m.msg, rs[0])))] else [])
         + SecondPass(m, soc, rs[1..])
  }

  predicate HasBits(v: bv32, bits: bv32) { v & bits != 0 }

  /** ECC scrubbing was on at suspend. */
  predicate ScrubActive(m: Machine, soc: Soc) {
    HasBits(Get(m.msg, MsgReg(soc.rmuPort, soc.scrubConfig)), soc.scrubActive)
  }

  function Tail(m: Machine, soc: Soc): seq<Entry>
    requires soc.Valid()
  {
    (if ScrubActive(m, soc)
     then [PciCfgWrite(ScriptAddress(soc.Mcr()), Command(soc.resumeOpcode, soc.rmuPort, 0))] else [])
    + [IoWrite(soc.smie, Get(m.io, soc.smie))]
  }

  /** The script for machine state m. */
  ghost function Script(m: Machine, soc: Soc, ds: seq<PciDevice>, rs: seq<MsgReg>): seq<Entry>
    requires soc.Valid() && ValidDevices(ds)
  {
    PciEntries(PciWrites(m, ds)) + MsgEntries(soc, FirstPass(m, soc, rs)) + MsgEntries(soc, SecondPass(m, soc, rs))
    + Tail(m, soc)
  }

  // ---- What the lists of writes contain ----

  ghost predicate SelectedFrom(d: PciDevice, i: nat, r: PciReg)
    requires d.Valid()
  {
    exists k :: i <= k < 64 && Selected(d, k) && r == DeviceReg(d, k)
  }

  /** The write is one of those from dword i on. */
  ghost predicate OfDevice(m: Machine, d: PciDevice, i: nat, w: (PciReg, bv32))
    requires d.Valid()
  {
    w.1 == Get(m.pci, w.0) && SelectedFrom(d, i, w.0)
  }

  /** The write for dword i, if it is selected. */
  function DeviceHead(m: Machine, d: PciDevice, i: nat): seq<(PciReg, bv32)>
    requires d.Valid() && i < 64
  {
    if Selected(d, i) then [(DeviceReg(d, i), Get(m.pci, DeviceReg(d, i)))] else []
  }

  lemma DeviceWritesStep(m: Machine, d: PciDevice, i: nat)
    requires d.Valid() && i <= 64
    ensures DeviceWrites(m, d, i) == if i == 64 then [] else DeviceHead(m, d, i) + DeviceWrites(m, d, i + 1)
  {
    hide Selected, DeviceReg, Get;
  }

  lemma FirstOfDevice(m: Machine, d: PciDevice, i: nat)
    requires d.Valid() && i < 64
    ensures forall j :: 0 <= j < |DeviceHead(m, d, i)| ==> OfDevice(m, d, i, DeviceHead(m, d, i)[j])
  {
    hide Selected, DeviceReg, Get;
  }

  lemma OfDeviceEarlier(m: Machine, d: PciDevice, i: nat, w: (PciReg, bv32))
    requires d.Valid() && OfDevice(m, d, i + 1, w)
    ensures OfDevice(m, d, i, w)
  {
    hide Selected, DeviceReg, Get;
  }

  lemma {:induction false} DeviceWritesSound(m: Machine, d: PciDevice, i: nat)
    requires d.Valid() && i <= 64
    ensures forall j :: 0 <= j < |DeviceWrites(m, d, i)| ==> OfDevice(m, d, i, DeviceWrites(m, d, i)[j])
    decreases 64 - i
  {
    hide Selected, DeviceReg, Get, DeviceWrites, OfDevice;
    DeviceWritesStep(m, d, i);
    if i < 64 {
      DeviceWritesSound(m, d, i + 1);
      var ws, rest := DeviceWrites(m, d, i), DeviceWrites(m, d, i + 1);
      var head := DeviceHead(m, d, i);
      forall j | 0 <= j < |ws|
        ensures OfDevice(m, d, i, ws[j])
      {
        if j < |head| {
          assert ws[j] == head[j];
          FirstOfDevice(m, d, i);
        } else {
          assert ws[j] == rest[j - |head|];
          OfDeviceEarlier(m, d, i, rest[j - |head|]);
        }
      }
    }
  }

  lemma {:induction false} DeviceWritesComplete(m: Machine, d: PciDevice, i: nat, k: nat)
    requires d.Valid() && i <= k < 64 && Selected(d, k)
    ensures Writes(DeviceWrites(m, d, i), DeviceReg(d, k))
    decreases 64 - i
  {
    hide Selected, DeviceReg, Get;
    var ws, rest := DeviceWrites(m, d, i), DeviceWrites(m, d, i + 1);
    if k == i {
      assert ws[0].0 == DeviceReg(d, k);
    } else {
      DeviceWritesComplete(m, d, i + 1, k);
      var head := ws[..|ws| - |rest|];
      assert ws == head + rest;
      WritesRight(head, rest, DeviceReg(d, k));
    }
  }

  /** The writes from dword i on are exactly those of the dwords selected, with the values at suspend. */
  lemma DeviceWritesContents(m: Machine, d: PciDevice, i: nat)
    requires d.Valid() && i <= 64
    ensures forall j :: 0 <= j < |DeviceWrites(m, d, i)| ==>
              DeviceWrites(m, d, i)[j].1 == Get(m.pci, DeviceWrites(m, d, i)[j].0)
    ensures forall j :: 0 <= j < |DeviceWrites(m, d, i)| ==>
              SelectedFrom(d, i, DeviceWrites(m, d, i)[j].0)
    ensures forall k :: i <= k < 64 && Selected(d, k) ==> Writes(DeviceWrites(m, d, i), DeviceReg(d, k))
  {
    hide Selected, DeviceReg, Get, DeviceWrites, SelectedFrom, Writes;
    DeviceWritesSound(m, d, i);
    forall j | 0 <= j < |DeviceWrites(m, d, i)|
      ensures DeviceWrites(m, d, i)[j].1 == Get(m.pci, DeviceWrites(m, d, i)[j].0)
      ensures SelectedFrom(d, i, DeviceWrites(m, d, i)[j].0)
    {
      assert OfDevice(m, d, i, DeviceWrites(m, d, i)[j]);
    }
    forall k | i <= k < 64 && Selected(d, k)
      ensures Writes(DeviceWrites(m, d, i), DeviceReg(d, k))
    {
      DeviceWritesComplete(m, d, i, k);
    }
  }

  /** The PCI writes are exactly those of the saved registers, with the values at suspend. */
  lemma {:induction false} PciWritesContents(m: Machine, ds: seq<PciDevice>)
    requires ValidDevices(ds)
    ensures forall j :: 0 <= j < |PciWrites(m, ds)| ==>
              PciWrites(m, ds)[j].1 == Get(m.pci, PciWrites(m, ds)[j].0) && Saved(m, ds, PciWrites(m, ds)[j].0)
    ensures forall r :: Saved(m, ds, r) ==> Writes(PciWrites(m, ds), r)
    decreases ds
  {
    hide Selected, DeviceReg, Get, Present, DeviceWrites;
    if ds != [] {
      var head := if Present(m, ds[0]) then DeviceWrites(m, ds[0], 0) else [];
      var rest, ws := PciWrites(m, ds[1..]), PciWrites(m, ds);
      DeviceWritesContents(m, ds[0], 0);
      PciWritesContents(m, ds[1..]);
      forall j | 0 <= j < |ws|
        ensures ws[j].1 == Get(m.pci, ws[j].0) && Saved(m, ds, ws[j].0)
      {
        if j < |head| {
          assert ws[j] == head[j] && SelectedFrom(ds[0], 0, head[j].0);
        } else {
          assert ws[j] == rest[j - |head|];
          SavedInTail(m, ds, ws[j].0);
        }
      }
      forall r | Saved(m, ds, r)
        ensures Writes(ws, r)
      {
        var k, i :| 0 <= k < |ds| && 0 <= i < 64 && Present(m, ds[k]) && Selected(ds[k], i) && r == DeviceReg(ds[k], i);
        if k == 0 {
          WritesLeft(head, rest, r);
        } else {
          assert ds[1..][k - 1] == ds[k];
          WritesRight(head, rest, r);
        }
      }
    }
  }

  lemma SavedInTail(m: Machine, ds: seq<PciDevice>, r: PciReg)
    requires ds != [] && ValidDevices(ds) && Saved(m, ds[1..], r)
    ensures Saved(m, ds, r)
  {
    hide Selected, DeviceReg, Present;
    var k, i :| 0 <= k < |ds[1..]| && 0 <= i < 64 && Present(m, ds[1..][k]) && Selected(ds[1..][k], i)
                && r == DeviceReg(ds[1..][k], i);
    assert ds[k + 1] == ds[1..][k];
  }

  lemma WritesLeft<K>(a: seq<(K, bv32)>, b: seq<(K, bv32)>, k: K)
    requires Writes(a, k)
    ensures Writes(a + b, k)
  {
    var i :| 0 <= i < |a| && a[i].0 == k;
    assert (a + b)[i].0 == k;
  }

  lemma WritesRight<K>(a: seq<(K, bv32)>, b: seq<(K, bv32)>, k: K)
    requires Writes(b, k)
    ensures Writes(a + b, k)
  {
    var i :| 0 <= i < |b| && b[i].0 == k;
    assert (a + b)[|a| + i].0 == k;
  }

  lemma {:induction false} FirstPassContents(m: Machine, soc: Soc, rs: seq<MsgReg>)
    requires soc.Valid()
    ensures |FirstPass(m, soc, rs)| == |rs|
    ensures forall j :: 0 <= j < |rs| ==>
              FirstPass(m, soc, rs)[j] == (rs[j], FirstValue(soc, rs[j], Get(m.msg, rs[j])))
    decreases rs
  {
    hide FirstValue, Get;
    if rs != [] {
      FirstPassContents(m, soc, rs[1..]);
    }
  }

  /** The write is one of the second pass. */
  ghost predicate OfSecondPass(m: Machine, soc: Soc, rs: seq<MsgReg>, w: (MsgReg, bv32))
    requires soc.Valid()
  {
    w.0 in rs && InSecondPass(soc, w.0) && w.1 == SecondValue(soc, Get(m.msg, w.0))
  }

  lemma {:induction false} SecondPassSound(m: Machine, soc: Soc, rs: seq<MsgReg>)
    requires soc.Valid()
    ensures forall j :: 0 <= j < |SecondPass(m, soc, rs)| ==> OfSecondPass(m, soc, rs, SecondPass(m, soc, rs)[j])
    decreases rs
  {
    hide InSecondPass, SecondValue, Get;
    if rs != [] {
      SecondPassSound(m, soc, rs[1..]);
      var ws, rest := SecondPass(m, soc, rs), SecondPass(m, soc, rs[1..]);
      forall j | 0 <= j < |ws|
        ensures OfSecondPass(m, soc, rs, ws[j])
      {
        var first := |ws| - |rest|;
        if j >= first {
          assert ws[j] == rest[j - first];
          assert OfSecondPass(m, soc, rs[1..], rest[j - first]);
        }
      }
    }
  }

  lemma {:induction false} SecondPassComplete(m: Machine, soc: Soc, rs: seq<MsgReg>, r: MsgReg)
    requires soc.Valid() && r in rs && InSecondPass(soc, r)
    ensures Writes(SecondPass(m, soc, rs), r)
    decreases rs
  {
    hide InSecondPass, SecondValue, Get;
    var ws, rest := SecondPass(m, soc, rs), SecondPass(m, soc, rs[1..]);
    if r == rs[0] {
      assert ws[0].0 == r;
    } else {
      SecondPassComplete(m, soc, rs[1..], r);
      var head := ws[..|ws| - |rest|];
      assert ws == head + rest;
      WritesRight(head, rest, r);
    }
  }

  lemma SecondPassContents(m: Machine, soc: Soc, rs: seq<MsgReg>)
    requires soc.Valid()
    ensures forall j :: 0 <= j < |SecondPass(m, soc, rs)| ==> OfSecondPass(m, soc, rs, SecondPass(m, soc, rs)[j])
    ensures forall r :: r in rs && InSecondPass(soc, r) ==> Writes(SecondPass(m, soc, rs), r)
  {
    hide SecondPass, InSecondPass, OfSecondPass, Writes;
    SecondPassSound(m, soc, rs);
    forall r | r in rs && InSecondPass(soc, r)
      ensures Writes(SecondPass(m, soc, rs), r)
    {
      SecondPassComplete(m, soc, rs, r);
    }
  }

  // ---- What replay restores ----

  /** The value a message register of the table ends with when it had v at suspend. */
  function FinalValue(soc: Soc, r: MsgReg, v: bv32): bv32
    requires soc.Valid()
  {
    if IsImrLow(soc, r) then Clear(v, soc.imrLock)
    else if IsImrMask(soc, r) && soc.isQuark2 then soc.allAccess
    else v
  }

  ghost predicate ValidTables(soc: Soc, ds: seq<PciDevice>, rs: seq<MsgReg>)
    requires soc.Valid()
  {
    ValidDevices(ds) && NoCommandSaved(ds, soc) && forall i :: 0 <= i < |rs| ==> rs[i].Valid()
  }

  lemma {:induction false} PciWritesReplay(m: Machine, st: Machine, soc: Soc, ds: seq<PciDevice>)
    requires soc.Valid() && ValidDevices(ds) && NoCommandSaved(ds, soc)
    ensures Replay(st, soc, PciEntries(PciWrites(m, ds))) == st.(pci := Apply(st.pci, PciWrites(m, ds)))
    ensures forall r :: Saved(m, ds, r) ==> Get(Apply(st.pci, PciWrites(m, ds)), r) == Get(m.pci, r)
    ensures forall r :: !Saved(m, ds, r) ==> Get(Apply(st.pci, PciWrites(m, ds)), r) == Get(st.pci, r)
    ensures forall i :: 0 <= i < |PciWrites(m, ds)| ==>
              var r := PciWrites(m, ds)[i].0; r.Valid() && r.offset < 0x100 && r != soc.Mcr()
  {
    hide Get, Present, Selected, PciWrites, Apply;
    var ws := PciWrites(m, ds);
    PciWritesContents(m, ds);
    forall i | 0 <= i < |ws|
      ensures ws[i].0.Valid() && ws[i].0.offset < 0x100 && ws[i].0 != soc.Mcr()
    {
      SavedIsValid(m, ds, soc, ws[i].0);
    }
    ReplayPci(st, soc, ws);
    forall r | Saved(m, ds, r)
      ensures Get(Apply(st.pci, ws), r) == Get(m.pci, r)
    {
      ApplyUniform(st.pci, ws, r, Get(m.pci, r));
    }
    forall r | !Saved(m, ds, r)
      ensures Get(Apply(st.pci, ws), r) == Get(st.pci, r)
    {
      ApplyOther(st.pci, ws, r);
    }
  }

  lemma SavedIsValid(m: Machine, ds: seq<PciDevice>, soc: Soc, r: PciReg)
    requires ValidDevices(ds) && NoCommandSaved(ds, soc) && Saved(m, ds, r)
    ensures r.Valid() && r.offset < 0x100 && r != soc.Mcr()
  {
    hide Present, Selected;
    var k, i :| 0 <= k < |ds| && 0 <= i < 64 && Present(m, ds[k]) && Selected(ds[k], i) && r == DeviceReg(ds[k], i);
    assert ds[k].Valid();
    SmallFields(ds[k].dev, ds[k].fn);
  }

  lemma SmallFields(dev: bv8, fn: bv8)
    requires dev < 0x20 && fn < 8
    ensures dev as nat < 0x20 && fn as nat < 8
  {
  }

  /** The message bus after the two passes. */
  lemma {:induction false} PassesRestore(m: Machine, st: map<MsgReg, bv32>, soc: Soc, rs: seq<MsgReg>)
    requires soc.Valid()
    ensures var final := Apply(Apply(st, FirstPass(m, soc, rs)), SecondPass(m, soc, rs));
            && (forall r :: r in rs ==> Get(final, r) == FinalValue(soc, r, Get(m.msg, r)))
            && (forall r :: r !in rs ==> Get(final, r) == Get(st, r))
  {
    hide Get, Apply, FirstPass, SecondPass, InImrRange;
    var first, second := FirstPass(m, soc, rs), SecondPass(m, soc, rs);
    FirstPassContents(m, soc, rs);
    SecondPassContents(m, soc, rs);
    forall r | r in rs
      ensures Get(Apply(Apply(st, first), second), r) == FinalValue(soc, r, Get(m.msg, r))
    {
      FirstPassSets(m, st, soc, rs, r);
      if InSecondPass(soc, r) {
        ApplyUniform(Apply(st, first), second, r, SecondValue(soc, Get(m.msg, r)));
        ImrKinds(soc, r);
      } else {
        ApplyOther(Apply(st, first), second, r);
        ImrKinds(soc, r);
      }
    }
    forall r | r !in rs
      ensures Get(Apply(Apply(st, first), second), r) == Get(st, r)
    {
      ApplyOther(st, first, r);
      ApplyOther(Apply(st, first), second, r);
    }
  }

  lemma {:induction false} FirstPassSets(m: Machine, st: map<MsgReg, bv32>, soc: Soc, rs: seq<MsgReg>, r: MsgReg)
    requires soc.Valid() && r in rs
    ensures Get(Apply(st, FirstPass(m, soc, rs)), r) == FirstValue(soc, r, Get(m.msg, r))
  {
    hide Get, Apply, FirstPass, FirstValue;
    FirstPassContents(m, soc, rs);
    var j :| 0 <= j < |rs| && rs[j] == r;
    assert FirstPass(m, soc, rs)[j].0 == r;
    ApplyUniform(st, FirstPass(m, soc, rs), r, FirstValue(soc, r, Get(m.msg, r)));
  }

  /** A register is at most one of L and mask. */
  lemma ImrKinds(soc: Soc, r: MsgReg)
    requires soc.Valid()
    ensures !(IsImrLow(soc, r) && IsImrMask(soc, r)) && !(IsImrHigh(soc, r) && IsImrMask(soc, r))
    ensures !(IsImrLow(soc, r) && IsImrHigh(soc, r))
  {
  }

  lemma ReplayResume(st: Machine, soc: Soc)
    requires soc.Valid()
    ensures var st' := Step(st, soc, PciCfgWrite(ScriptAddress(soc.Mcr()), Command(soc.resumeOpcode, soc.rmuPort, 0)));
            && st' == st.(pci := st'.pci, scrubResumes := st.scrubResumes + 1)
            && (forall r :: r != soc.Mcr() ==> Get(st'.pci, r) == Get(st.pci, r))
  {
    hide ScriptAddress, AddressedReg, Command, Opcode, Target;
    AddressRoundTrip(soc.Mcr());
    CommandRoundTrip(soc.resumeOpcode, MsgReg(soc.rmuPort, 0));
  }

  lemma ReplayTail(m: Machine, st: Machine, soc: Soc)
    requires soc.Valid()
    ensures var st' := Replay(st, soc, Tail(m, soc));
            && st'.msg == st.msg
            && (forall r :: r != soc.Mcr() ==> Get(st'.pci, r) == Get(st.pci, r))
            && st'.io == st.io[soc.smie := Get(m.io, soc.smie)]
            && st'.scrubResumes == st.scrubResumes
               + if ScrubActive(m, soc) then 1 else 0
  {
    hide Command, ScriptAddress, Execute, AddressedReg, ScrubActive;
    var resume := PciCfgWrite(ScriptAddress(soc.Mcr()), Command(soc.resumeOpcode, soc.rmuPort, 0));
    var io := IoWrite(soc.smie, Get(m.io, soc.smie));
    var tail := Tail(m, soc);
    ReplayOne(st, soc, io);
    ReplayOne(st, soc, resume);
    ReplayResume(st, soc);
    ReplayAppend(st, soc, [resume], [io]);
    ReplayOne(Step(st, soc, resume), soc, io);
    assert tail == [resume] + [io] || tail == [io];
  }

  /** No prefix of the tail writes a message register. */
  lemma ReplayTailPrefix(m: Machine, st: Machine, soc: Soc, n: nat)
    requires soc.Valid() && n <= |Tail(m, soc)|
    ensures Replay(st, soc, Tail(m, soc)[..n]).msg == st.msg
  {
    var resume := PciCfgWrite(ScriptAddress(soc.Mcr()), Command(soc.resumeOpcode, soc.rmuPort, 0));
    var io := IoWrite(soc.smie, Get(m.io, soc.smie));
    var tail := Tail(m, soc);
    assert tail[..n] == tail || tail[..n] == [] || tail[..n] == [resume];
    ReplayTail(m, st, soc);
    hide Tail, Command, ScriptAddress, Execute, AddressedReg, Get;
    if tail[..n] == [resume] {
      ReplayOne(st, soc, resume);
      ReplayResume(st, soc);
    }
  }

  /** Replaying the script of a machine state from any other state: every PCI dword the masks select on a
      present device and every message register of the table gets its value at suspend, as far as
      FinalValue keeps it, and no other register changes. MDR and MCR are scratch. */
  lemma {:induction false} ReplayRestores(m: Machine, st: Machine, soc: Soc, ds: seq<PciDevice>, rs: seq<MsgReg>)
    requires soc.Valid() && ValidTables(soc, ds, rs)
    ensures var final := Replay(st, soc, Script(m, soc, ds, rs));
            && (forall r :: Saved(m, ds, r) && r != soc.Mdr() ==> Get(final.pci, r) == Get(m.pci, r))
            && (forall r :: !Saved(m, ds, r) && r != soc.Mdr() && r != soc.Mcr() ==>
                  Get(final.pci, r) == Get(st.pci, r))
            && (forall r :: r in rs ==> Get(final.msg, r) == FinalValue(soc, r, Get(m.msg, r)))
            && (forall r :: r !in rs ==> Get(final.msg, r) == Get(st.msg, r))
            && final.io == st.io[soc.smie := Get(m.io, soc.smie)]
            && final.scrubResumes == st.scrubResumes
               + if ScrubActive(m, soc) then 1 else 0
  {
    hide Get, Apply, Tail, FirstPass, SecondPass, FinalValue, PciWrites, Replay, ScrubActive;
    var pci, first, second := PciWrites(m, ds), FirstPass(m, soc, rs), SecondPass(m, soc, rs);
    FirstPassContents(m, soc, rs);
    SecondPassContents(m, soc, rs);
    PciWritesReplay(m, st, soc, ds);
    var s1 := Replay(st, soc, PciEntries(pci));
    ReplayMsg(s1, soc, first);
    var s2 := Replay(s1, soc, MsgEntries(soc, first));
    ReplayMsg(s2, soc, second);
    var s3 := Replay(s2, soc, MsgEntries(soc, second));
    ReplayTail(m, s3, soc);
    PassesRestore(m, st.msg, soc, rs);
    ReplayAppend(st, soc, PciEntries(pci), MsgEntries(soc, first));
    ReplayAppend(st, soc, PciEntries(pci) + MsgEntries(soc, first), MsgEntries(soc, second));
    ReplayAppend(st, soc, PciEntries(pci) + MsgEntries(soc, first) + MsgEntries(soc, second), Tail(m, soc));
  }

  /** ECC scrubbing is resumed once if its active bit was set at suspend, and not otherwise. */
  lemma ScrubAfterReplay(m: Machine, st: Machine, soc: Soc, ds: seq<PciDevice>, rs: seq<MsgReg>)
    requires soc.Valid() && ValidTables(soc, ds, rs)
    ensures Replay(st, soc, Script(m, soc, ds, rs)).scrubResumes
         == st.scrubResumes
            + if IsClear(Get(m.msg, MsgReg(soc.rmuPort, soc.scrubConfig)), soc.scrubActive) then 0 else 1
  {
    hide Get, Replay, Script, IsClear, ScrubActive, Saved, FinalValue;
    ScrubIs(m, soc);
    ReplayRestores(m, st, soc, ds, rs);
  }

  lemma ScrubIs(m: Machine, soc: Soc)
    ensures ScrubActive(m, soc) <==> !IsClear(Get(m.msg, MsgReg(soc.rmuPort, soc.scrubConfig)), soc.scrubActive)
  {
    hide Get, HasBits, IsClear;
    HasOrClear(Get(m.msg, MsgReg(soc.rmuPort, soc.scrubConfig)), soc.scrubActive);
  }

  lemma HasOrClear(v: bv32, bits: bv32)
    ensures HasBits(v, bits) <==> !IsClear(v, bits)
  {
  }

  /** The register is one of the 32 from IMR0L on, of the given kinds: 0 for L, 1 for H, 2 and 3 for the masks. */
  predicate OfImr(soc: Soc, r: MsgReg, first: bv32, last: bv32) {
    r.port == soc.memoryManager && soc.imr0 <= r.reg <= soc.imr0 + 31 && first <= r.reg & 3 <= last
  }

  lemma KindOfImr(soc: Soc, r: MsgReg)
    requires soc.Valid()
    ensures IsImrLow(soc, r) <==> OfImr(soc, r, 0, 0)
    ensures IsImrHigh(soc, r) <==> OfImr(soc, r, 1, 1)
    ensures IsImrMask(soc, r) <==> OfImr(soc, r, 2, 3)
  {
    LowKind(soc, r);
    HighKind(soc, r);
    MaskKind(soc, r);
    hide IsImrLow, IsImrHigh, IsImrMask, OfImr;
  }

  lemma LowKind(soc: Soc, r: MsgReg)
    requires soc.Valid()
    ensures IsImrLow(soc, r) <==> OfImr(soc, r, 0, 0)
  {
  }

  lemma HighKind(soc: Soc, r: MsgReg)
    requires soc.Valid()
    ensures IsImrHigh(soc, r) <==> OfImr(soc, r, 1, 1)
  {
  }

  lemma MaskKind(soc: Soc, r: MsgReg)
    requires soc.Valid()
    ensures IsImrMask(soc, r) <==> OfImr(soc, r, 2, 3)
  {
    if r.port == soc.memoryManager && soc.imr0 <= r.reg <= soc.imr0 + 31 && r.reg & 3 >= 2 {
      MasksFrom(soc.imr0, r.reg);
    }
  }

  lemma MasksFrom(imr0: bv32, reg: bv32)
    requires imr0 <= 0xE0 && imr0 & 3 == 0 && imr0 <= reg && reg & 3 >= 2
    ensures imr0 + 2 <= reg
  {
  }

  /** The values agree in every other bit. */
  predicate SameBut(v: bv32, w: bv32, bits: bv32) { v & !bits == w & !bits }

  lemma ClearKeeps(v: bv32, bits: bv32)
    ensures SameBut(Clear(v, bits), v, bits)
  {
  }

  function Or(a: bv32, b: bv32): bv32 { a | b }

  lemma SameButMore(v: bv32, w: bv32, bits: bv32, more: bv32)
    requires SameBut(v, w, bits)
    ensures SameBut(v, w, Or(bits, more)) && SameBut(v, w, Or(more, bits))
  {
    Fewer(v, bits, more);
    Fewer(w, bits, more);
  }

  lemma Fewer(v: bv32, bits: bv32, more: bv32)
    ensures v & !Or(bits, more) == (v & !bits) & !more && v & !Or(more, bits) == (v & !bits) & !more
  {
  }

  lemma SameButThen(u: bv32, v: bv32, w: bv32, bits: bv32)
    requires SameBut(u, v, bits) && SameBut(v, w, bits)
    ensures SameBut(u, w, bits) && SameBut(w, u, bits)
  {
  }

  /** Bit by bit: on resume IMRxL has every bit it had at suspend but the lock bit, which is clear. The access
      masks of a QUARK2 part are all-access, and every other register of the table is what it was. */
  lemma RegisterAfterReplay(m: Machine, st: Machine, soc: Soc, ds: seq<PciDevice>, rs: seq<MsgReg>, r: MsgReg)
    requires soc.Valid() && ValidTables(soc, ds, rs) && r in rs
    ensures var before, after := Get(m.msg, r), Get(Replay(st, soc, Script(m, soc, ds, rs)).msg, r);
            && (OfImr(soc, r, 0, 0) ==> SameBut(after, before, soc.imrLock) && IsClear(after, soc.imrLock))
            && (OfImr(soc, r, 2, 3) && soc.isQuark2 ==> after == soc.allAccess)
            && (!OfImr(soc, r, 0, 0) && !(OfImr(soc, r, 2, 3) && soc.isQuark2) ==> after == before)
  {
    KindOfImr(soc, r);
    hide Get, Replay, Script, Saved, IsImrLow, IsImrMask, Clear, OfImr, SameBut, IsClear;
    ReplayRestores(m, st, soc, ds, rs);
    ClearKeeps(Get(m.msg, r), soc.imrLock);
    ClearIsClear(Get(m.msg, r), soc.imrLock);
  }

  /** A replay of the script gives a message register of the table every bit it had at suspend, but for the lock
      bit of an IMRxL, exactly if the register is not an IMR access mask of a QUARK2 part that was not
      all-access. */
  lemma RestoredExactlyWhen(m: Machine, st: Machine, soc: Soc, ds: seq<PciDevice>, rs: seq<MsgReg>, r: MsgReg)
    requires soc.Valid() && ValidTables(soc, ds, rs) && r in rs
    ensures var before, after := Get(m.msg, r), Get(Replay(st, soc, Script(m, soc, ds, rs)).msg, r);
            (if OfImr(soc, r, 0, 0) then SameBut(after, before, soc.imrLock) else after == before)
            <==> !(soc.isQuark2 && OfImr(soc, r, 2, 3) && before != soc.allAccess)
  {
    OneKind(soc, r);
    hide Get, Replay, Script, Saved, OfImr, SameBut, IsClear;
    RegisterAfterReplay(m, st, soc, ds, rs, r);
  }

  lemma OneKind(soc: Soc, r: MsgReg)
    ensures !(OfImr(soc, r, 0, 0) && OfImr(soc, r, 2, 3))
  {
  }

  /** Every dword that a mask bit stands for, on a device that answers, is restored. */
  lemma ConfigAfterReplay(
    m: Machine, st: Machine, soc: Soc, ds: seq<PciDevice>, rs: seq<MsgReg>, k: nat, g: nat, b: nat)
    requires soc.Valid() && ValidTables(soc, ds, rs) && k < |ds| && g < 8 && b < 8
    requires ds[k].mask[g] & (1 as bv8 << b) != 0
    requires Get(m.pci, PciReg(ds[k].bus as nat, ds[k].dev as nat, ds[k].fn as nat, 0)) & 0xFFFF != 0xFFFF
    ensures var r := PciReg(ds[k].bus as nat, ds[k].dev as nat, ds[k].fn as nat, 32 * g + 4 * b);
            r != soc.Mdr() ==> Get(Replay(st, soc, Script(m, soc, ds, rs)).pci, r) == Get(m.pci, r)
  {
    BitIsShift(b);
    SelectedBit(ds[k], g, b);
    assert Present(m, ds[k]) && Selected(ds[k], 8 * g + b);
    hide Get, Replay, Script, Selected, DeviceReg, Present;
    ReplayRestores(m, st, soc, ds, rs);
    assert Saved(m, ds, DeviceReg(ds[k], 8 * g + b));
  }

  lemma BitIsShift(b: nat)
    requires b < 8
    ensures Bit(b) == 1 as bv8 << b
  {
  }

  /** A mask bit of a device that answers stands for this register. */
  ghost predicate Masked(m: Machine, ds: seq<PciDevice>, r: PciReg)
    requires ValidDevices(ds)
  {
    exists k, g, b :: 0 <= k < |ds| && 0 <= g < 8 && 0 <= b < 8 && MaskBit(m, ds[k], g, b, r)
  }

  ghost predicate MaskBit(m: Machine, d: PciDevice, g: nat, b: nat, r: PciReg)
    requires d.Valid() && g < 8 && b < 8
  {
    && r == PciReg(d.bus as nat, d.dev as nat, d.fn as nat, 32 * g + 4 * b)
    && d.mask[g] & (1 as bv8 << b) != 0
    && Get(m.pci, PciReg(d.bus as nat, d.dev as nat, d.fn as nat, 0)) & 0xFFFF != 0xFFFF
  }

  /** No other PCI register is written, but for MDR and MCR. */
  lemma OtherConfigAfterReplay(m: Machine, st: Machine, soc: Soc, ds: seq<PciDevice>, rs: seq<MsgReg>, r: PciReg)
    requires soc.Valid() && ValidTables(soc, ds, rs) && !Masked(m, ds, r) && r != soc.Mdr() && r != soc.Mcr()
    ensures Get(Replay(st, soc, Script(m, soc, ds, rs)).pci, r) == Get(st.pci, r)
  {
    hide Get, Replay, Script, Saved, Masked;
    ReplayRestores(m, st, soc, ds, rs);
    if Saved(m, ds, r) {
      SavedIsMasked(m, ds, r);
    }
  }

  lemma SavedIsMasked(m: Machine, ds: seq<PciDevice>, r: PciReg)
    requires ValidDevices(ds) && Saved(m, ds, r)
    ensures Masked(m, ds, r)
  {
    hide Get;
    var k, i :| 0 <= k < |ds| && 0 <= i < 64 && Present(m, ds[k]) && Selected(ds[k], i) && r == DeviceReg(ds[k], i);
    BitIsShift(i % 8);
    SelectedBit(ds[k], i / 8, i % 8);
    assert MaskBit(m, ds[k], i / 8, i % 8, r);
  }

  // ---- What every prefix of a replay keeps ----

  /** No IMR protects anything: on QUARK2 no enable bit is set, elsewhere every access mask is open. */
  ghost predicate Disarmed(soc: Soc, msg: map<MsgReg, bv32>)
    requires soc.Valid()
  {
    if soc.isQuark2 then forall r :: IsImrLow(soc, r) ==> IsClear(Get(msg, r), soc.imrEn)
    else forall r :: IsImrMask(soc, r) ==> Get(msg, r) == soc.allAccess
  }

  /** The bounds part of an L or H register: all of it, but for the enable bit of L on QUARK2. */
  function Bounds(soc: Soc, r: MsgReg, v: bv32): bv32
    requires soc.Valid()
  {
    if soc.isQuark2 && IsImrLow(soc, r) then Clear(v, soc.imrEn) else v
  }

  /** Every L and H register of the table holds the bounds it ends with. */
  ghost predicate BoundsInPlace(m: Machine, soc: Soc, rs: seq<MsgReg>, msg: map<MsgReg, bv32>)
    requires soc.Valid()
  {
    forall r :: r in rs && (IsImrLow(soc, r) || IsImrHigh(soc, r)) ==>
      Bounds(soc, r, Get(msg, r)) == Bounds(soc, r, FinalValue(soc, r, Get(m.msg, r)))
  }

  lemma {:induction false} FirstPassDisarmed(m: Machine, soc: Soc, rs: seq<MsgReg>, msg: map<MsgReg, bv32>, k: nat)
    requires soc.Valid() && k <= |rs| && Disarmed(soc, msg)
    ensures k <= |FirstPass(m, soc, rs)| && Disarmed(soc, Apply(msg, FirstPass(m, soc, rs)[..k]))
  {
    hide Disarmed, Apply, FirstPass, FirstValue, DisarmedValue, Get;
    FirstPassContents(m, soc, rs);
    var ws := FirstPass(m, soc, rs)[..k];
    forall j | 0 <= j < k
      ensures DisarmedValue(soc, ws[j].0, ws[j].1)
    {
      FirstValueDisarmed(soc, rs[j], Get(m.msg, rs[j]));
    }
    DisarmedWrites(soc, msg, ws);
  }

  ghost predicate DisarmedValue(soc: Soc, r: MsgReg, v: bv32)
    requires soc.Valid()
  {
    if soc.isQuark2 then IsImrLow(soc, r) ==> IsClear(v, soc.imrEn) else IsImrMask(soc, r) ==> v == soc.allAccess
  }

  lemma FirstValueDisarmed(soc: Soc, r: MsgReg, v: bv32)
    requires soc.Valid()
    ensures DisarmedValue(soc, r, FirstValue(soc, r, v))
  {
    ImrKinds(soc, r);
    hide IsImrLow, IsImrHigh, IsImrMask, Clear, IsClear;
    ClearIsClear(Clear(v, soc.imrLock), soc.imrEn);
  }

  lemma {:induction false} DisarmedWrites(soc: Soc, msg: map<MsgReg, bv32>, ws: seq<(MsgReg, bv32)>)
    requires soc.Valid() && Disarmed(soc, msg)
    requires forall j :: 0 <= j < |ws| ==> DisarmedValue(soc, ws[j].0, ws[j].1)
    ensures Disarmed(soc, Apply(msg, ws))
    decreases ws
  {
    hide IsImrLow, IsImrMask, IsClear;
    if ws != [] {
      assert DisarmedValue(soc, ws[0].0, ws[0].1);
      DisarmedWrites(soc, msg[ws[0].0 := ws[0].1], ws[1..]);
    }
  }

  lemma {:induction false} SecondPassKeepsBounds(m: Machine, soc: Soc, rs: seq<MsgReg>, msg: map<MsgReg, bv32>, k: nat)
    requires soc.Valid() && k <= |SecondPass(m, soc, rs)|
    ensures BoundsInPlace(m, soc, rs, Apply(Apply(msg, FirstPass(m, soc, rs)), SecondPass(m, soc, rs)[..k]))
  {
    hide Get, Apply, FirstPass, SecondPass, IsImrLow, IsImrHigh, IsImrMask, FirstValue, FinalValue, Bounds, SecondValue;
    var after, ws := Apply(msg, FirstPass(m, soc, rs)), SecondPass(m, soc, rs)[..k];
    SecondPassContents(m, soc, rs);
    forall r | r in rs && (IsImrLow(soc, r) || IsImrHigh(soc, r))
      ensures Bounds(soc, r, Get(Apply(after, ws), r)) == Bounds(soc, r, FinalValue(soc, r, Get(m.msg, r)))
    {
      FirstPassSets(m, msg, soc, rs, r);
      BoundsOfValues(soc, r, Get(m.msg, r));
      if Writes(ws, r) {
        ApplyUniform(after, ws, r, SecondValue(soc, Get(m.msg, r)));
      } else {
        ApplyOther(after, ws, r);
      }
    }
  }

  lemma BoundsOfValues(soc: Soc, r: MsgReg, v: bv32)
    requires soc.Valid() && (IsImrLow(soc, r) || IsImrHigh(soc, r))
    ensures Bounds(soc, r, FirstValue(soc, r, v)) == Bounds(soc, r, FinalValue(soc, r, v))
    ensures InSecondPass(soc, r) ==> SecondValue(soc, v) == FinalValue(soc, r, v)
  {
    ImrKinds(soc, r);
    hide IsImrLow, IsImrHigh, IsImrMask;
    hide Clear;
    ClearIsClear(Clear(v, soc.imrLock), soc.imrEn);
  }

  /** The message bus after the first k writes of the first pass, or of the second. */
  ghost predicate InFirstPass(m: Machine, before: map<MsgReg, bv32>, soc: Soc, rs: seq<MsgReg>, msg: map<MsgReg, bv32>, k: nat)
    requires soc.Valid()
  {
    k <= |FirstPass(m, soc, rs)| && msg == Apply(before, FirstPass(m, soc, rs)[..k])
  }

  ghost predicate DuringSecondPass(m: Machine, before: map<MsgReg, bv32>, soc: Soc, rs: seq<MsgReg>, msg: map<MsgReg, bv32>, k: nat)
    requires soc.Valid()
  {
    && k <= |SecondPass(m, soc, rs)|
    && msg == Apply(Apply(before, FirstPass(m, soc, rs)), SecondPass(m, soc, rs)[..k])
  }

  /** The message bus after n entries of the script: what has been written so far. */
  lemma {:induction false} ReplayPrefix(m: Machine, st: Machine, soc: Soc, ds: seq<PciDevice>, rs: seq<MsgReg>, n: nat)
    requires soc.Valid() && ValidTables(soc, ds, rs) && n <= |Script(m, soc, ds, rs)|
    ensures var msg := Replay(st, soc, Script(m, soc, ds, rs)[..n]).msg;
            (exists k: nat :: InFirstPass(m, st.msg, soc, rs, msg, k) || DuringSecondPass(m, st.msg, soc, rs, msg, k))
  {
    hide Get, Apply, Tail, FirstPass, SecondPass, PciWrites, Replay, MsgEntries, PciEntries;
    var first, second := FirstPass(m, soc, rs), SecondPass(m, soc, rs);
    var e0, e1, e2, e3 := PciEntries(PciWrites(m, ds)), MsgEntries(soc, first), MsgEntries(soc, second), Tail(m, soc);
    FirstPassContents(m, soc, rs);
    SecondPassContents(m, soc, rs);
    PciWritesReplay(m, st, soc, ds);
    var s1 := Replay(st, soc, e0);
    ReplayMsg(s1, soc, first);
    var s2 := Replay(s1, soc, e1);
    ReplayMsg(s2, soc, second);
    var s3 := Replay(s2, soc, e2);
    MsgEntriesLength(soc, first);
    MsgEntriesLength(soc, second);
    var script := e0 + e1 + e2 + e3;
    if n <= |e0| {
      PrefixOfPci(m, st, soc, ds, n);
      assert script[..n] == e0[..n];
      ApplyNothing(st.msg, first);
      assert InFirstPass(m, st.msg, soc, rs, Replay(st, soc, script[..n]).msg, 0);
    } else if n <= |e0| + |e1| {
      var k := n - |e0|;
      assert script[..n] == e0 + e1[..k];
      ReplayAppend(st, soc, e0, e1[..k]);
      ReplayMsgPrefix(s1, soc, first, k);
      assert InFirstPass(m, st.msg, soc, rs, Replay(st, soc, script[..n]).msg, k / 2);
    } else if n <= |e0| + |e1| + |e2| {
      var k := n - |e0| - |e1|;
      assert script[..n] == (e0 + e1) + e2[..k];
      ReplayAppend(st, soc, e0, e1);
      ReplayAppend(st, soc, e0 + e1, e2[..k]);
      ReplayMsgPrefix(s2, soc, second, k);
      assert DuringSecondPass(m, st.msg, soc, rs, Replay(st, soc, script[..n]).msg, k / 2);
    } else {
      var k := n - |e0| - |e1| - |e2|;
      assert script[..n] == (e0 + e1 + e2) + e3[..k];
      ReplayAppend(st, soc, e0, e1);
      ReplayAppend(st, soc, e0 + e1, e2);
      ReplayAppend(st, soc, e0 + e1 + e2, e3[..k]);
      ReplayTailPrefix(m, s3, soc, k);
      assert second[..|second|] == second;
      assert DuringSecondPass(m, st.msg, soc, rs, Replay(st, soc, script[..n]).msg, |second|);
    }
  }

  lemma ApplyNothing(msg: map<MsgReg, bv32>, ws: seq<(MsgReg, bv32)>)
    ensures Apply(msg, ws[..0]) == msg
  {
  }

  lemma PrefixOfPci(m: Machine, st: Machine, soc: Soc, ds: seq<PciDevice>, n: nat)
    requires soc.Valid() && ValidDevices(ds) && NoCommandSaved(ds, soc) && n <= |PciEntries(PciWrites(m, ds))|
    ensures Replay(st, soc, PciEntries(PciWrites(m, ds))[..n]).msg == st.msg
  {
    hide Get, Apply, PciWrites, Replay, PciEntries;
    var ws := PciWrites(m, ds);
    PciWritesReplay(m, st, soc, ds);
    PciEntriesTake(ws, 0);
    PciEntriesTake(ws, n);
    ReplayPci(st, soc, ws[..n]);
  }

  /** No IMR is in force: on QUARK2 no IMRxL has its enable bit, elsewhere every access mask is open. */
  ghost predicate NoneInForce(soc: Soc, msg: map<MsgReg, bv32>) {
    && (soc.isQuark2 ==> forall r :: OfImr(soc, r, 0, 0) ==> IsClear(Get(msg, r), soc.imrEn))
    && (!soc.isQuark2 ==> forall r :: OfImr(soc, r, 2, 3) ==> Get(msg, r) == soc.allAccess)
  }

  /** The H register is as at suspend, and the L register has every bit it had then but its lock bit and, on
      QUARK2, its enable bit. */
  ghost predicate BoundsBack(m: Machine, soc: Soc, msg: map<MsgReg, bv32>, r: MsgReg) {
    && (OfImr(soc, r, 1, 1) ==> Get(msg, r) == Get(m.msg, r))
    && (OfImr(soc, r, 0, 0) ==>
          SameBut(Get(msg, r), Get(m.msg, r), if soc.isQuark2 then Or(soc.imrLock, soc.imrEn) else soc.imrLock))
  }

  lemma NoneInForceIsDisarmed(soc: Soc, msg: map<MsgReg, bv32>)
    requires soc.Valid()
    ensures NoneInForce(soc, msg) <==> Disarmed(soc, msg)
  {
    hide Get, OfImr, IsImrLow, IsImrMask, IsClear;
    forall r: MsgReg
      ensures IsImrLow(soc, r) <==> OfImr(soc, r, 0, 0)
      ensures IsImrMask(soc, r) <==> OfImr(soc, r, 2, 3)
    {
      KindOfImr(soc, r);
    }
  }

  lemma BoundsAreBack(m: Machine, soc: Soc, rs: seq<MsgReg>, msg: map<MsgReg, bv32>, r: MsgReg)
    requires soc.Valid() && BoundsInPlace(m, soc, rs, msg) && r in rs
    ensures BoundsBack(m, soc, msg, r)
  {
    KindOfImr(soc, r);
    KindsApart(soc, r);
    hide Get, OfImr, IsImrLow, IsImrHigh, IsImrMask, Clear, SameBut;
    if OfImr(soc, r, 0, 0) {
      LowBack(soc, Get(m.msg, r), Get(msg, r));
    }
  }

  lemma LowBack(soc: Soc, v: bv32, v': bv32)
    requires if soc.isQuark2 then Clear(v', soc.imrEn) == Clear(Clear(v, soc.imrLock), soc.imrEn)
             else v' == Clear(v, soc.imrLock)
    ensures SameBut(v', v, if soc.isQuark2 then Or(soc.imrLock, soc.imrEn) else soc.imrLock)
  {
    hide Clear, SameBut, Or;
    var w := Clear(v, soc.imrLock);
    ClearKeeps(v, soc.imrLock);
    if soc.isQuark2 {
      var bits := Or(soc.imrLock, soc.imrEn);
      ClearSame(v', w, soc.imrEn);
      SameButMore(v', w, soc.imrEn, soc.imrLock);
      SameButMore(w, v, soc.imrLock, soc.imrEn);
      SameButThen(v', w, v, bits);
    }
  }

  lemma ClearSame(v: bv32, w: bv32, bits: bv32)
    requires Clear(v, bits) == Clear(w, bits)
    ensures SameBut(v, w, bits)
  {
  }

  lemma KindsApart(soc: Soc, r: MsgReg)
    requires soc.Valid()
    ensures IsImrHigh(soc, r) ==> !IsImrLow(soc, r) && !IsImrMask(soc, r)
  {
  }

  /** From a state with no IMR in force, after any number of script entries: either still none is in force, or the
      bounds of all of them are as at suspend. */
  lemma {:induction false} NeverHalfRestored(
    m: Machine, st: Machine, soc: Soc, ds: seq<PciDevice>, rs: seq<MsgReg>, n: nat)
    requires soc.Valid() && ValidTables(soc, ds, rs) && n <= |Script(m, soc, ds, rs)|
    requires NoneInForce(soc, st.msg)
    ensures var msg := Replay(st, soc, Script(m, soc, ds, rs)[..n]).msg;
            NoneInForce(soc, msg) || forall r :: r in rs ==> BoundsBack(m, soc, msg, r)
  {
    hide Get, Apply, FirstPass, SecondPass, Script, Replay, Disarmed, BoundsInPlace, NoneInForce, BoundsBack;
    NoneInForceIsDisarmed(soc, st.msg);
    ReplayPrefix(m, st, soc, ds, rs, n);
    var msg := Replay(st, soc, Script(m, soc, ds, rs)[..n]).msg;
    var k: nat :| InFirstPass(m, st.msg, soc, rs, msg, k) || DuringSecondPass(m, st.msg, soc, rs, msg, k);
    if InFirstPass(m, st.msg, soc, rs, msg, k) {
      FirstPassContents(m, soc, rs);
      FirstPassDisarmed(m, soc, rs, st.msg, k);
      NoneInForceIsDisarmed(soc, msg);
    } else {
      SecondPassKeepsBounds(m, soc, rs, st.msg, k);
      forall r | r in rs
        ensures BoundsBack(m, soc, msg, r)
      {
        BoundsAreBack(m, soc, rs, msg, r);
      }
    }
  }

  // ---- The compiler ----

  /** The bytes of the PCI table: PCI_DEVICE, PCI_REG_MASK, ..., PCI_DEVICE_END. */
  function PciTable(ds: seq<PciDevice>): seq<bv8> {
    if ds == [] then [0xFF] else [ds[0].bus, ds[0].dev, ds[0].fn] + ds[0].mask + PciTable(ds[1..])
  }

  /** The bytes of the message table: port, register, ..., 0xFF. */
  function MsgTable(rs: seq<MsgReg>): seq<bv32> {
    if rs == [] then [0xFF] else [rs[0].port, rs[0].reg] + MsgTable(rs[1..])
  }

  ghost predicate PortsNotEnd(rs: seq<MsgReg>) {
    forall i :: 0 <= i < |rs| ==> rs[i].port != 0xFF
  }

  lemma BitStep(b: nat)
    requires b < 8
    ensures Bit(b) << 1 == if b == 7 then 0 else Bit(b + 1)
    ensures Bit(b) != 0 && Bit(0) == 0x01
  {
  }

  /** One dword of a device, as the list of writes sees it. */
  lemma DeviceWritesTurn(m: Machine, d: PciDevice, i: nat, script: seq<Entry>)
    requires d.Valid() && i < 64
    ensures var r := DeviceReg(d, i);
            script + PciEntries(DeviceWrites(m, d, i))
            == (if Selected(d, i) then script + [PciCfgWrite(ScriptAddress(r), Get(m.pci, r))] else script)
               + PciEntries(DeviceWrites(m, d, i + 1))
  {
    hide Get, ScriptAddress, Selected, DeviceReg;
    var r, rest := DeviceReg(d, i), DeviceWrites(m, d, i + 1);
    if Selected(d, i) {
      assert ([(r, Get(m.pci, r))] + rest)[1..] == rest;
    } else {
      assert [] + rest == rest;
    }
  }

  /** The inner loop: the dwords of one device, with a mask bit that starts over when it is shifted out.
      start is the index of the mask bytes in the table. */
  method SaveDevice(
    m: Machine, table: seq<bv8>, start: nat, bus: bv8, dev: bv8, fn: bv8, script: seq<Entry>, ghost d: PciDevice)
    returns (script': seq<Entry>)
    requires d.Valid() && start + 8 <= |table| && d == PciDevice(bus, dev, fn, table[start..start + 8])
    ensures script' == script + PciEntries(DeviceWrites(m, d, 0))
  {
    hide Get, ScriptAddress, PciEntries, DeviceWrites, Selected, DeviceReg, Bit;
    script' := script;
    BitStep(0);
    var offset := 0;
    var mask: bv8 := 0x01;
    // The byte and the bit of the mask that offset stands for.
    ghost var g, b := 0, 0;
    while offset < 256
      invariant 0 <= g <= 8 && 0 <= b < 8 && offset == 32 * g + 4 * b <= 256
      invariant mask == (if g > 0 && b == 0 then 0 else Bit(b))
      invariant script' + PciEntries(DeviceWrites(m, d, 8 * g + b)) == script + PciEntries(DeviceWrites(m, d, 0))
    {
      if mask == 0x00 {
        mask := 0x01;
      }
      BitStep(b);
      Bytes.DivModUnique(offset, 32, g, 4 * b);
      assert table[start + offset / 32] == d.mask[g] by {
        assert table[start..start + 8][g] == table[start + g];
      }
      SelectedBit(d, g, b);
      DeviceWritesTurn(m, d, 8 * g + b, script');
      if table[start + offset / 32] & mask != 0 {
        var r := PciReg(bus as nat, dev as nat, fn as nat, offset);
        script' := script' + [PciCfgWrite(ScriptAddress(r), Get(m.pci, r))];
      }
      offset := offset + 4;
      mask := mask << 1;
      g, b := if b == 7 then g + 1 else g, if b == 7 then 0 else b + 1;
    }
    DeviceWritesEnd(m, d);
  }

  lemma SelectedBit(d: PciDevice, g: nat, b: nat)
    requires d.Valid() && g < 8 && b < 8
    ensures Selected(d, 8 * g + b) == (d.mask[g] & Bit(b) != 0)
    ensures DeviceReg(d, 8 * g + b) == PciReg(d.bus as nat, d.dev as nat, d.fn as nat, 32 * g + 4 * b)
  {
    Bytes.DivModUnique(8 * g + b, 8, g, b);
  }

  lemma DeviceWritesEnd(m: Machine, d: PciDevice)
    requires d.Valid()
    ensures PciEntries(DeviceWrites(m, d, 64)) == []
  {
  }

  /** The loop over the PCI table. */
  method SavePciConfig(m: Machine, table: seq<bv8>, ghost ds: seq<PciDevice>) returns (script: seq<Entry>)
    requires ValidDevices(ds) && table == PciTable(ds)
    ensures script == PciEntries(PciWrites(m, ds))
  {
    hide Get, ScriptAddress, PciEntries, DeviceWrites;
    script := [];
    var index := 0;
    ghost var left := ds;
    while table[index] != 0xFF
      invariant index <= |table| && table[index..] == PciTable(left) && ValidDevices(left)
      invariant index < |table|
      invariant script + PciEntries(PciWrites(m, left)) == PciEntries(PciWrites(m, ds))
      decreases |table| - index
    {
      ghost var d := left[0];
      PciTableHead(table, index, left);
      PciWritesTurn(m, left, script);
      var bus, dev, fn := table[index], table[index + 1], table[index + 2];
      index := index + 3;
      if Get(m.pci, PciReg(bus as nat, dev as nat, fn as nat, 0)) & 0xFFFF != 0xFFFF {
        script := SaveDevice(m, table, index, bus, dev, fn, script, d);
      }
      index := index + 8;
      left := left[1..];
    }
    PciTableDone(table, index, left);
    NoPciWrites(m);
  }

  lemma PciTableHead(table: seq<bv8>, index: nat, left: seq<PciDevice>)
    requires index < |table| && table[index..] == PciTable(left) && ValidDevices(left) && table[index] != 0xFF
    ensures left != [] && index + 11 < |table|
    ensures left[0] == PciDevice(table[index], table[index + 1], table[index + 2], table[index + 3..index + 11])
    ensures table[index + 11..] == PciTable(left[1..]) && ValidDevices(left[1..])
  {
    assert table[index] == table[index..][0];
    assert left != [];
    var d, rest := left[0], PciTable(left[1..]);
    assert |d.mask| == 8;
    var head := [d.bus, d.dev, d.fn] + d.mask;
    assert table[index..] == head + rest;
    assert table[index + 1] == table[index..][1] && table[index + 2] == table[index..][2];
    assert table[index + 3..index + 11] == table[index..][3..11] == d.mask;
    assert table[index + 11..] == table[index..][11..] == rest;
    assert |rest| > 0;
  }

  lemma PciTableDone(table: seq<bv8>, index: nat, left: seq<PciDevice>)
    requires index < |table| && table[index..] == PciTable(left) && ValidDevices(left) && table[index] == 0xFF
    ensures left == []
  {
    assert table[index] == table[index..][0];
  }

  lemma NoPciWrites(m: Machine)
    ensures PciEntries(PciWrites(m, [])) == []
  {
  }

  lemma PciWritesTurn(m: Machine, left: seq<PciDevice>, script: seq<Entry>)
    requires left != [] && ValidDevices(left)
    ensures script + PciEntries(PciWrites(m, left))
         == (if Present(m, left[0]) then script + PciEntries(DeviceWrites(m, left[0], 0)) else script)
            + PciEntries(PciWrites(m, left[1..]))
  {
    hide Present, DeviceWrites, ScriptAddress;
    var head, rest := DeviceWrites(m, left[0], 0), PciWrites(m, left[1..]);
    if Present(m, left[0]) {
      PciEntriesAppend(head, rest);
    } else {
      assert [] + rest == rest;
    }
  }

  lemma MsgTableHead(table: seq<bv32>, index: nat, left: seq<MsgReg>)
    requires index < |table| && table[index..] == MsgTable(left) && PortsNotEnd(left)
    ensures table[index] == 0xFF <==> left == []
    ensures left != [] ==>
              && index + 2 < |table|
              && left[0] == MsgReg(table[index], table[index + 1])
              && table[index + 2..] == MsgTable(left[1..]) && PortsNotEnd(left[1..])
  {
    assert table[index] == table[index..][0];
    if left != [] {
      var rest := MsgTable(left[1..]);
      assert table[index..] == [left[0].port, left[0].reg] + rest;
      assert table[index + 1] == table[index..][1];
      assert table[index + 2..] == table[index..][2..] == rest;
      assert |rest| > 0;
    }
  }

  lemma FirstPassTurn(m: Machine, soc: Soc, left: seq<MsgReg>, script: seq<Entry>)
    requires soc.Valid() && left != []
    ensures var w := (left[0], FirstValue(soc, left[0], Get(m.msg, left[0])));
            script + MsgEntries(soc, FirstPass(m, soc, left))
            == (script + MsgPair(soc, w)) + MsgEntries(soc, FirstPass(m, soc, left[1..]))
  {
    hide FirstValue, MsgPair, Get;
    var w, rest := (left[0], FirstValue(soc, left[0], Get(m.msg, left[0]))), FirstPass(m, soc, left[1..]);
    assert ([w] + rest)[1..] == rest;
  }

  lemma SecondPassTurn(m: Machine, soc: Soc, left: seq<MsgReg>, script: seq<Entry>)
    requires soc.Valid() && left != []
    ensures var w := (left[0], SecondValue(soc, Get(m.msg, left[0])));
            script + MsgEntries(soc, SecondPass(m, soc, left))
            == (if InSecondPass(soc, left[0]) then script + MsgPair(soc, w) else script)
               + MsgEntries(soc, SecondPass(m, soc, left[1..]))
  {
    hide SecondValue, InSecondPass, MsgPair, Get, MsgEntries, SecondPass;
    var w, rest := (left[0], SecondValue(soc, Get(m.msg, left[0]))), SecondPass(m, soc, left[1..]);
    SecondPassStep(m, soc, left);
    MsgEntriesCons(soc, w, rest);
    if InSecondPass(soc, left[0]) {
      assert script + (MsgPair(soc, w) + MsgEntries(soc, rest)) == script + MsgPair(soc, w) + MsgEntries(soc, rest);
    } else {
      assert [] + rest == rest;
    }
  }

  lemma SecondPassStep(m: Machine, soc: Soc, left: seq<MsgReg>)
    requires soc.Valid() && left != []
    ensures SecondPass(m, soc, left)
         == (if InSecondPass(soc, left[0]) then [(left[0], SecondValue(soc, Get(m.msg, left[0])))] else [])
            + SecondPass(m, soc, left[1..])
  {
    hide SecondValue, InSecondPass, Get;
  }

  lemma MsgEntriesCons(soc: Soc, w: (MsgReg, bv32), rest: seq<(MsgReg, bv32)>)
    requires soc.Valid()
    ensures MsgEntries(soc, [w] + rest) == MsgPair(soc, w) + MsgEntries(soc, rest)
  {
    hide MsgPair;
    assert ([w] + rest)[1..] == rest;
  }

  /** The first message-bus loop: settings with protection disabled. */
  method SaveDisarmed(m: Machine, soc: Soc, table: seq<bv32>, script: seq<Entry>, ghost rs: seq<MsgReg>)
    returns (script': seq<Entry>)
    requires soc.Valid() && PortsNotEnd(rs) && table == MsgTable(rs)
    ensures script' == script + MsgEntries(soc, FirstPass(m, soc, rs))
  {
    hide Get, ScriptAddress, Command, MsgTable, FirstValue, FirstPass, SecondPass, MsgEntries;
    script' := script;
    var index := 0;
    ghost var left := rs;
    assert table[0..] == table;
    TableNotEmpty(rs);
    while table[index] != 0xFF
      invariant index < |table| && table[index..] == MsgTable(left) && PortsNotEnd(left)
      invariant script' + MsgEntries(soc, FirstPass(m, soc, left)) == script + MsgEntries(soc, FirstPass(m, soc, rs))
      decreases |table| - index
    {
      MsgTableHead(table, index, left);
      FirstPassTurn(m, soc, left, script');
      var r := MsgReg(table[index], table[index + 1]);
      var data := FirstValue(soc, r, Get(m.msg, r));
      script' := script' + [PciCfgWrite(ScriptAddress(soc.Mdr()), data),
                            PciCfgWrite(ScriptAddress(soc.Mcr()), Command(soc.writeOpcode, r.port, r.reg))];
      index := index + 2;
      left := left[1..];
    }
    MsgTableHead(table, index, left);
    PassesOfNothing(m, soc);
  }

  lemma PassesOfNothing(m: Machine, soc: Soc)
    requires soc.Valid()
    ensures MsgEntries(soc, FirstPass(m, soc, [])) == [] && MsgEntries(soc, SecondPass(m, soc, [])) == []
  {
  }

  lemma TableNotEmpty(rs: seq<MsgReg>)
    ensures |MsgTable(rs)| > 0
  {
  }

  /** The second message-bus loop: protection enabled. */
  method SaveArmed(m: Machine, soc: Soc, table: seq<bv32>, script: seq<Entry>, ghost rs: seq<MsgReg>)
    returns (script': seq<Entry>)
    requires soc.Valid() && PortsNotEnd(rs) && table == MsgTable(rs)
    ensures script' == script + MsgEntries(soc, SecondPass(m, soc, rs))
  {
    hide Get, ScriptAddress, Command, MsgTable, FirstValue, FirstPass, SecondPass, MsgEntries;
    script' := script;
    var index := 0;
    ghost var left := rs;
    assert table[0..] == table;
    TableNotEmpty(rs);
    while table[index] != 0xFF
      invariant index < |table| && table[index..] == MsgTable(left) && PortsNotEnd(left)
      invariant script' + MsgEntries(soc, SecondPass(m, soc, left)) == script + MsgEntries(soc, SecondPass(m, soc, rs))
      decreases |table| - index
    {
      MsgTableHead(table, index, left);
      SecondPassTurn(m, soc, left, script');
      var r := MsgReg(table[index], table[index + 1]);
      var armed := InSecondPass(soc, r);
      if armed {
        var data := if soc.isQuark2 then Clear(Get(m.msg, r), soc.imrLock) else Get(m.msg, r);
        script' := script' + [PciCfgWrite(ScriptAddress(soc.Mdr()), data),
                              PciCfgWrite(ScriptAddress(soc.Mcr()), Command(soc.writeOpcode, r.port, r.reg))];
      }
      index := index + 2;
      left := left[1..];
    }
    MsgTableHead(table, index, left);
    PassesOfNothing(m, soc);
  }

  /** The whole compiler, from the register state m at suspend. */
  method SaveRuntimeScriptTable(
    m: Machine, soc: Soc, pciTable: seq<bv8>, msgTable: seq<bv32>, ghost ds: seq<PciDevice>, ghost rs: seq<MsgReg>)
    returns (script: seq<Entry>)
    requires soc.Valid() && ValidDevices(ds) && PortsNotEnd(rs)
    requires pciTable == PciTable(ds) && msgTable == MsgTable(rs)
    ensures script == Script(m, soc, ds, rs)
  {
    hide Get, ScriptAddress, Command, MsgTable, PciTable, MsgEntries, PciEntries, PciWrites, FirstPass, SecondPass,
         ScrubActive;
    script := SavePciConfig(m, pciTable, ds);
    script := SaveDisarmed(m, soc, msgTable, script, rs);
    script := SaveArmed(m, soc, msgTable, script, rs);
    ghost var body := script;
    if ScrubActive(m, soc) {
      script := script + [PciCfgWrite(ScriptAddress(soc.Mcr()), Command(soc.resumeOpcode, soc.rmuPort, 0))];
    }
    ghost var resume := script[|body|..];
    assert script == body + resume;
    script := script + [IoWrite(soc.smie, Get(m.io, soc.smie))];
    assert script == body + (resume + [IoWrite(soc.smie, Get(m.io, soc.smie))]);
  }
}

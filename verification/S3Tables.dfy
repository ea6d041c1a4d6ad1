/** The two tables that the Quark driver compiles, and what the general results say for them. */
module S3Tables {
  import opened S3Script

  const NO_MORE: seq<bv8> := [0x00, 0x00, 0x00, 0x00, 0x00, 0x00]

  /** mPciCfgRegTable: the south cluster, the host bridge, the two PCIe root ports and the legacy bridge. */
  const QUARK_DEVICES: seq<PciDevice> := [
    PciDevice(0, 20, 0, [0x18, 0x98] + NO_MORE),
    PciDevice(0, 20, 1, [0x38, 0x98] + NO_MORE),
    PciDevice(0, 20, 2, [0x18, 0x98] + NO_MORE),
    PciDevice(0, 20, 3, [0x18, 0x98, 0x00, 0x01, 0x00, 0x00, 0x03, 0x00]),
    PciDevice(0, 20, 4, [0x18, 0x98] + NO_MORE),
    PciDevice(0, 20, 5, [0x38, 0x98] + NO_MORE),
    PciDevice(0, 20, 6, [0x18, 0x98] + NO_MORE),
    PciDevice(0, 20, 7, [0x18, 0x98] + NO_MORE),
    PciDevice(0, 21, 0, [0x18, 0x98] + NO_MORE),
    PciDevice(0, 21, 1, [0x18, 0x98] + NO_MORE),
    PciDevice(0, 21, 2, [0x38, 0x98] + NO_MORE),
    PciDevice(0, 0, 0, [0x00, 0x08] + NO_MORE),
    PciDevice(0, 23, 0, [0xC0, 0x8F, 0x18, 0x00, 0x00, 0x00, 0x00, 0x00]),
    PciDevice(0, 23, 1, [0xC0, 0x8F, 0x18, 0x00, 0x00, 0x00, 0x00, 0x00]),
    PciDevice(0, 31, 0, [0x00, 0x08, 0x4E, 0x03, 0x02, 0x00, 0x60, 0x10])]

  /** The L, H, RM and WM registers of one IMR. */
  function ImrGroup(port: bv32, imr: bv32): seq<MsgReg> {
    [MsgReg(port, imr), MsgReg(port, imr + 1), MsgReg(port, imr + 2), MsgReg(port, imr + 3)]
  }

  function FourGroups(port: bv32, imr: bv32): seq<MsgReg> {
    ImrGroup(port, imr) + ImrGroup(port, imr + 4) + ImrGroup(port, imr + 8) + ImrGroup(port, imr + 12)
  }

  /** IMR0 to IMR7. */
  function ImrRegs(soc: Soc): seq<MsgReg> {
    FourGroups(soc.memoryManager, soc.imr0) + FourGroups(soc.memoryManager, soc.imr0 + 16)
  }

  /** QNCS3SaveExtReg: the SMRAM register, the IMRs, and the four scrub registers. */
  function QuarkRegs(soc: Soc, smram: MsgReg, scrubEnd: bv32, scrubStart: bv32, scrubNext: bv32): seq<MsgReg> {
    [smram] + ImrRegs(soc) +
    [MsgReg(soc.rmuPort, scrubEnd), MsgReg(soc.rmuPort, scrubStart), MsgReg(soc.rmuPort, scrubNext),
     MsgReg(soc.rmuPort, soc.scrubConfig)]
  }

  /** reg is one of the four registers from imr on. */
  predicate OfGroup(imr: bv32, reg: bv32) { imr <= reg <= imr + 3 && imr <= 0xFF }

  lemma InGroup(port: bv32, imr: bv32, r: MsgReg)
    requires r.port == port && OfGroup(imr, r.reg)
    ensures r in ImrGroup(port, imr)
  {
    assert r.reg == imr || r.reg == imr + 1 || r.reg == imr + 2 || r.reg == imr + 3;
  }

  /** Sixteen registers are four groups of four. */
  lemma Quarters(imr: bv32, reg: bv32)
    requires imr <= reg <= imr + 15 && imr <= 0xF0
    ensures OfGroup(imr, reg) || OfGroup(imr + 4, reg) || OfGroup(imr + 8, reg) || OfGroup(imr + 12, reg)
  {
  }

  lemma InFourGroups(port: bv32, imr: bv32, r: MsgReg)
    requires r.port == port && imr <= r.reg <= imr + 15 && imr <= 0xF0
    ensures r in FourGroups(port, imr)
  {
    hide ImrGroup, OfGroup;
    Quarters(imr, r.reg);
    if OfGroup(imr, r.reg) {
      InGroup(port, imr, r);
    } else if OfGroup(imr + 4, r.reg) {
      InGroup(port, imr + 4, r);
    } else if OfGroup(imr + 8, r.reg) {
      InGroup(port, imr + 8, r);
    } else {
      InGroup(port, imr + 12, r);
    }
  }

  /** Every IMR register is in the message table. */
  lemma ImrInTable(soc: Soc, r: MsgReg)
    requires soc.Valid() && (IsImrLow(soc, r) || IsImrHigh(soc, r) || IsImrMask(soc, r))
    ensures r in ImrRegs(soc)
  {
    hide FourGroups;
    if r.reg <= soc.imr0 + 15 {
      InFourGroups(soc.memoryManager, soc.imr0, r);
    } else {
      InFourGroups(soc.memoryManager, soc.imr0 + 16, r);
    }
  }

  lemma GroupValid(port: bv32, imr: bv32)
    requires port < 0x100 && imr <= 0xFC
    ensures forall r :: r in ImrGroup(port, imr) ==> r.Valid()
  {
  }

  lemma FourGroupsValid(port: bv32, imr: bv32)
    requires port < 0x100 && imr <= 0xF0
    ensures forall r :: r in FourGroups(port, imr) ==> r.Valid()
  {
    hide ImrGroup;
    GroupValid(port, imr);
    GroupValid(port, imr + 4);
    GroupValid(port, imr + 8);
    GroupValid(port, imr + 12);
  }

  lemma QuarkDevicesValid()
    ensures ValidDevices(QUARK_DEVICES)
  {
  }

  /** Device 0 is the only host bridge entry, and its mask selects the dword at 0x2C alone. */
  lemma QuarkNoCommand(soc: Soc)
    requires soc.Valid() && soc.mcr != 0x2C
    ensures ValidDevices(QUARK_DEVICES) && NoCommandSaved(QUARK_DEVICES, soc)
  {
    QuarkDevicesValid();
    forall k, i | 0 <= k < |QUARK_DEVICES| && 0 <= i < 64 && Selected(QUARK_DEVICES[k], i)
      ensures DeviceReg(QUARK_DEVICES[k], i) != soc.Mcr()
    {
      if k == 11 {
        HostBridgeMask(i);
      }
    }
  }

  lemma HostBridgeMask(i: nat)
    requires i < 64 && QUARK_DEVICES[11].Valid() && Selected(QUARK_DEVICES[11], i)
    ensures i == 11
  {
  }

  /** What the constants of the message table have to be. */
  predicate ByteRegs(soc: Soc, smram: MsgReg, scrubEnd: bv32, scrubStart: bv32, scrubNext: bv32) {
    smram.Valid() && scrubEnd < 0x100 && scrubStart < 0x100 && scrubNext < 0x100 && soc.scrubConfig < 0x100
  }

  lemma QuarkTablesValid(soc: Soc, smram: MsgReg, scrubEnd: bv32, scrubStart: bv32, scrubNext: bv32)
    requires soc.Valid() && soc.mcr != 0x2C && ByteRegs(soc, smram, scrubEnd, scrubStart, scrubNext)
    ensures ValidTables(soc, QUARK_DEVICES, QuarkRegs(soc, smram, scrubEnd, scrubStart, scrubNext))
  {
    hide FourGroups;
    QuarkNoCommand(soc);
    FourGroupsValid(soc.memoryManager, soc.imr0);
    FourGroupsValid(soc.memoryManager, soc.imr0 + 16);
    var rs := QuarkRegs(soc, smram, scrubEnd, scrubStart, scrubNext);
    assert forall r :: r in rs ==> r.Valid();
  }

  /** The resume script of a Quark platform, from any state with no IMR in force: whatever number of its
      entries has been replayed, either no IMR is in force, or each of the eight has its final bounds. */
  lemma {:induction false} QuarkNeverHalfRestored(
    m: Machine, st: Machine, soc: Soc, smram: MsgReg, scrubEnd: bv32, scrubStart: bv32, scrubNext: bv32, n: nat)
    requires soc.Valid() && soc.mcr != 0x2C && ByteRegs(soc, smram, scrubEnd, scrubStart, scrubNext)
    requires NoneInForce(soc, st.msg) && ValidDevices(QUARK_DEVICES)
    requires n <= |Script(m, soc, QUARK_DEVICES, QuarkRegs(soc, smram, scrubEnd, scrubStart, scrubNext))|
    ensures var rs := QuarkRegs(soc, smram, scrubEnd, scrubStart, scrubNext);
            var msg := Replay(st, soc, Script(m, soc, QUARK_DEVICES, rs)[..n]).msg;
            NoneInForce(soc, msg) || forall r :: BoundsBack(m, soc, msg, r)
  {
    hide Replay, Script, NoneInForce, Get, ImrRegs, IsImrMask, IsImrLow, IsImrHigh, OfImr;
    var rs := QuarkRegs(soc, smram, scrubEnd, scrubStart, scrubNext);
    QuarkTablesValid(soc, smram, scrubEnd, scrubStart, scrubNext);
    NeverHalfRestored(m, st, soc, QUARK_DEVICES, rs, n);
    forall r | OfImr(soc, r, 0, 0) || OfImr(soc, r, 1, 1)
      ensures r in rs
    {
      KindOfImr(soc, r);
      ImrInTable(soc, r);
    }
  }
}

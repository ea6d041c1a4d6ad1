/**
 The three SPI protected range registers and the policy that fills them. Registers and addresses are
 32-bit values; a mask of a contiguous field is a division and a remainder.
 */
module SpiProtect {
  import opened Bytes

  const PAGE: nat := 0x1000
  const WINDOW: nat := 0x100_0000
  const FOUR_GB: nat := 0x1_0000_0000
  const WRITE_PROTECT_ENABLE: nat := 0x8000_0000
  const REGISTERS: nat := 3

  function Wrap(x: int): nat { x % FOUR_GB }

  // ---- One register ----

  predicate Enabled(value: nat) { value / WRITE_PROTECT_ENABLE % 2 == 1 }

  /** Bits 11..0 hold the first page of the range. */
  function BaseOf(value: nat): nat { value % PAGE * PAGE }

  /** Bits 23..12 hold the last page of the range. */
  function LimitOf(value: nat): nat { value / PAGE % PAGE * PAGE + (PAGE - 1) }

  predicate Protects(value: nat, at: nat) { Enabled(value) && BaseOf(value) <= at <= LimitOf(value) }

  function Enable(value: nat): nat { if Enabled(value) then value else value + WRITE_PROTECT_ENABLE }

  /** The register value for a range, before the enable bit. */
  function RangeValue(base: nat, length: nat): nat {
    var step := Wrap(AlignUp(length, PAGE));
    Wrap(base + step - 1) / PAGE % PAGE * PAGE + base / PAGE % PAGE
  }

  function ValueFor(direct: nat, base: nat, length: nat): nat {
    Enable(if direct == 0 then RangeValue(base, length) else direct)
  }

  /** Two 12-bit fields under the enable bit read back. */
  lemma FieldsReadBack(limitPage: nat, basePage: nat)
    requires limitPage < PAGE && basePage < PAGE
    ensures var value := Enable(limitPage * PAGE + basePage);
            && value == 0x8000_0000 + limitPage * 0x1000 + basePage
            && Enabled(value) && WRITE_PROTECT_ENABLE <= value < FOUR_GB
            && BaseOf(value) == basePage * PAGE && LimitOf(value) == limitPage * PAGE + (PAGE - 1)
  {
    var low := limitPage * PAGE + basePage;
    DivModUnique(low, WRITE_PROTECT_ENABLE, 0, low);
    var value := Enable(low);
    DivModUnique(value, WRITE_PROTECT_ENABLE, 1, low);
    DivModUnique(value, PAGE, 0x8_0000 + limitPage, basePage);
    DivModUnique(0x8_0000 + limitPage, PAGE, 0x80, limitPage);
  }

  /** The value written is never that of a free register. */
  lemma WrittenIsUsed(direct: nat, base: nat, length: nat)
    requires direct < FOUR_GB
    ensures Enabled(ValueFor(direct, base, length)) && 0 < ValueFor(direct, base, length) < FOUR_GB
  {
    hide RangeValue;
    if direct == 0 {
      RangeValueIsUsed(base, length);
    } else if !Enabled(direct) {
      var q := direct / WRITE_PROTECT_ENABLE;
      assert q == 0;
      DivModUnique(direct + WRITE_PROTECT_ENABLE, WRITE_PROTECT_ENABLE, 1, direct);
    }
  }

  /** A value given directly is written as it is, with the enable bit. */
  lemma DirectValue(direct: nat, base: nat, length: nat)
    requires 0 < direct < FOUR_GB
    ensures ValueFor(direct, base, length) == if direct >= 0x8000_0000 then direct else direct + 0x8000_0000
  {
  }

  lemma RangeValueIsUsed(base: nat, length: nat)
    ensures var value := Enable(RangeValue(base, length));
            && Enabled(value) && WRITE_PROTECT_ENABLE <= value < FOUR_GB
            && BaseOf(value) == base / PAGE % PAGE * PAGE
  {
    hide Enabled, BaseOf, LimitOf, Enable;
    FieldsReadBack(Wrap(base + Wrap(AlignUp(length, PAGE)) - 1) / PAGE % PAGE, base / PAGE % PAGE);
  }

  /** A range that starts on a page inside the window is protected up to the end of its last page. */
  lemma AlignedRange(base: nat, length: nat)
    requires base % PAGE == 0 && length > 0 && base + length <= WINDOW
    ensures var value := Enable(RangeValue(base, length));
            && Enabled(value) && BaseOf(value) == base
            && LimitOf(value) == base + AlignUp(length, PAGE) - 1
  {
    hide AlignUp, Enabled, BaseOf, LimitOf, Enable;
    var step := AlignUp(length, PAGE);
    PagesFit(base, length);
    var first, count := base / PAGE, step / PAGE;
    assert base == PAGE * first && step == PAGE * count;
    var last := first + count - 1;
    DivModUnique(base + step - 1, PAGE, last, PAGE - 1);
    WrapSmall(step);
    WrapSmall(base + step - 1);
    DivModUnique(last, PAGE, 0, last);
    DivModUnique(first, PAGE, 0, first);
    FieldsReadBack(last, first);
  }

  lemma PagesFit(base: nat, length: nat)
    requires base % PAGE == 0 && length > 0 && base + length <= WINDOW
    ensures base + AlignUp(length, PAGE) <= WINDOW
  {
    AlignShift(length, base, PAGE);
    AlignMonotone(length + base, WINDOW, PAGE);
    AlignUnique(WINDOW, PAGE, WINDOW);
  }

  lemma WrapSmall(x: nat)
    requires x < FOUR_GB
    ensures Wrap(x) == x
  {
  }

  /** An empty range at 0 wraps to the whole window. */
  lemma EmptyRangeAtZero()
    ensures var value := Enable(RangeValue(0, 0)); Enabled(value) && BaseOf(value) == 0 && LimitOf(value) == WINDOW - 1
  {
    hide Enabled, BaseOf, LimitOf, Enable;
    AlignUnique(0, PAGE, 0);
    FieldsReadBack(PAGE - 1, 0);
  }

  // ---- The registers ----

  type Registers = s: seq<nat> | |s| == REGISTERS witness [0, 0, 0]

  predicate AnyProtects(regs: Registers, at: nat) { exists i :: 0 <= i < REGISTERS && Protects(regs[i], at) }

  /** One register covers the whole range. */
  predicate Covers(value: nat, base: nat, length: nat) {
    length > 0 && Enabled(value) && base >= BaseOf(value) && Wrap(base + (length - 1)) <= LimitOf(value)
  }

  predicate RangeProtected(regs: Registers, base: nat, length: nat) {
    exists i :: 0 <= i < REGISTERS && Covers(regs[i], base, length)
  }

  /** The answer is right about bytes: every byte of a range found protected is. */
  lemma ProtectedRangeBytes(regs: Registers, base: nat, length: nat, at: nat)
    requires RangeProtected(regs, base, length) && base + length <= FOUR_GB && base <= at < base + length
    ensures AnyProtects(regs, at)
  {
    hide Enabled, BaseOf, LimitOf;
    var i :| 0 <= i < REGISTERS && Covers(regs[i], base, length);
    WrapSmall(base + (length - 1));
    assert Protects(regs[i], at);
  }

  /** The first free register, or their number if all are used. */
  function FirstFree(regs: Registers): (i: nat)
    ensures i <= REGISTERS
  {
    if regs[0] == 0 then 0 else if regs[1] == 0 then 1 else if regs[2] == 0 then 2 else REGISTERS
  }

  /** The registers after one range write. A locked-down controller ignores the write. */
  function AfterWrite(regs: Registers, locked: bool, direct: nat, base: nat, length: nat): Registers {
    var i := FirstFree(regs);
    if locked || i == REGISTERS then regs else regs[i := ValueFor(direct, base, length)]
  }

  /** Used registers keep their value. */
  predicate Grows(regs: Registers, regs': Registers) {
    forall i :: 0 <= i < REGISTERS && regs[i] != 0 ==> regs'[i] == regs[i]
  }

  lemma WriteGrows(regs: Registers, locked: bool, direct: nat, base: nat, length: nat)
    ensures Grows(regs, AfterWrite(regs, locked, direct, base, length))
  {
  }

  /** A free register protects nothing, so a range once protected stays so as the registers grow. */
  lemma GrowKeepsProtection(regs: Registers, regs': Registers, base: nat, length: nat)
    requires Grows(regs, regs') && RangeProtected(regs, base, length)
    ensures RangeProtected(regs', base, length)
  {
    hide BaseOf, LimitOf, Wrap;
    var i :| 0 <= i < REGISTERS && Covers(regs[i], base, length);
    assert regs[i] != 0;
    assert Covers(regs'[i], base, length);
  }

  /** The S3 boot script: memory writes to protect registers. */
  datatype MemWrite = MemWrite(index: nat, value: nat)

  function Replayed(regs: Registers, script: seq<MemWrite>): Registers {
    if script == [] then regs
    else
      var r := Replayed(regs, script[..|script| - 1]);
      var w := script[|script| - 1];
      if w.index < REGISTERS then r[w.index := w.value] else r
  }

  // ---- The policy ----

  datatype BootMode = Recovery | FlashUpdate | OtherBoot

  /** The flash device ends at 4 GB; nvBase is the CPU address of NV storage. */
  datatype Config = Config(flashSize: nat, nvBase: nat, nvSize: nat) {
    /** NV storage lies in a device the registers can describe, and does not end it, as the code asserts. */
    predicate Valid() {
      && 0 < flashSize <= WINDOW && 0 < nvSize
      && FOUR_GB - flashSize <= nvBase && nvBase + nvSize < FOUR_GB
    }

    function NvStart(): nat
      requires Valid()
    {
      nvBase - (FOUR_GB - flashSize)
    }

    function NvEnd(): nat
      requires Valid()
    {
      NvStart() + nvSize
    }

    predicate InNv(at: nat)
      requires Valid()
    {
      NvStart() <= at < NvEnd()
    }
  }

  /** One step of the policy: protect the range unless it is protected. */
  function AfterProtect(regs: Registers, locked: bool, base: nat, length: nat): Registers {
    if RangeProtected(regs, base, length) then regs else AfterWrite(regs, locked, 0, base, length)
  }

  function AfterPolicy(regs: Registers, locked: bool, c: Config): Registers
    requires c.Valid()
  {
    AfterProtect(AfterProtect(regs, locked, 0, c.NvStart()), locked, c.NvEnd(), c.flashSize - c.NvEnd())
  }

  /** The register writes that one step tries. */
  function WritesTried(regs: Registers, base: nat, length: nat): nat {
    if RangeProtected(regs, base, length) || FirstFree(regs) == REGISTERS then 0 else 1
  }

  function PolicyWrites(regs: Registers, locked: bool, c: Config): nat
    requires c.Valid()
  {
    WritesTried(regs, 0, c.NvStart())
    + WritesTried(AfterProtect(regs, locked, 0, c.NvStart()), c.NvEnd(), c.flashSize - c.NvEnd())
  }

  /** The range is protected after the step, by an earlier register or a new one. */
  predicate Succeeds(regs: Registers, locked: bool, base: nat, length: nat) {
    RangeProtected(regs, base, length) || (!locked && FirstFree(regs) < REGISTERS)
  }

  /** A step succeeds if a register covered the range before, or an unlocked controller has a register left. */
  lemma SucceedsMeans(regs: Registers, locked: bool, base: nat, length: nat)
    ensures Succeeds(regs, locked, base, length)
       <==> RangeProtected(regs, base, length) || (!locked && (regs[0] == 0 || regs[1] == 0 || regs[2] == 0))
  {
    hide RangeProtected;
  }

  // ---- Calls ----

  /** What calls change and depend on: the registers and the configuration lock. */
  datatype Setup = Setup(regs: Registers, locked: bool)

  datatype Call =
    | WriteRange(direct: nat, base: nat, length: nat)
    | LockPolicy(config: Config, mode: BootMode, preBoot: bool)
    | LockConfiguration
  {
    predicate Valid() { (WriteRange? ==> direct < FOUR_GB) && (LockPolicy? ==> config.Valid()) }
  }

  ghost predicate AllValid(calls: seq<Call>) { forall j :: 0 <= j < |calls| ==> calls[j].Valid() }

  function AfterCall(s: Setup, call: Call): Setup
    requires call.Valid()
  {
    match call
    case WriteRange(direct, base, length) => s.(regs := AfterWrite(s.regs, s.locked, direct, base, length))
    case LockPolicy(config, mode, preBoot) =>
      Setup(if mode.OtherBoot? then AfterPolicy(s.regs, s.locked, config) else s.regs,
            s.locked || preBoot || mode != FlashUpdate)
    case LockConfiguration => s.(locked := true)
  }

  ghost function AfterCalls(s: Setup, calls: seq<Call>): Setup
    requires AllValid(calls)
  {
    if calls == [] then s else AfterCall(AfterCalls(s, calls[..|calls| - 1]), calls[|calls| - 1])
  }

  class SpiController {
    var regs: Registers
    /** The configuration lock. */
    var locked: bool
    /** The writes to protect registers so far, whether they took effect or not. */
    var writes: nat
    var script: seq<MemWrite>
    /** The lock of the Quark and memory configuration variables. */
    var variablesLocked: bool

    /** The controller after reset. */
    constructor ()
      ensures regs == FREE && !locked && !variablesLocked && writes == 0 && script == [] && Resumable()
    {
      regs, locked, writes, script, variablesLocked := FREE, false, 0, [], false;
    }

    function Current(): Setup
      reads this
    {
      Setup(regs, locked)
    }

    /** Resuming from S3 with the registers free brings them back. */
    predicate Resumable()
      reads this
    {
      Replayed([0, 0, 0], script) == regs
    }

    /** WriteFirstFreeSpiProtect: index is the register written, if it took the value. */
    method WriteFirstFree(direct: nat, base: nat, length: nat) returns (status: Status, index: nat)
      requires direct < FOUR_GB
      modifies this`regs, this`writes
      ensures regs == AfterWrite(old(regs), locked, direct, base, length)
      ensures var free := FirstFree(old(regs)) < REGISTERS;
              && writes == old(writes) + (if free then 1 else 0)
              && status == (if !free then NotFound else if locked then DeviceError else Success)
      ensures status == Success ==> index == FirstFree(old(regs)) && regs[index] != 0
    {
      hide RangeValue, Enable;
      WrittenIsUsed(direct, base, length);
      index := REGISTERS;
      var i := REGISTERS;
      if regs[0] == 0 {
        i := 0;
      } else {
        if regs[1] == 0 {
          i := 1;
        } else {
          if regs[2] == 0 {
            i := 2;
          }
        }
      }
      if i < REGISTERS {
        var value := ValueFor(direct, base, length);
        if !locked {
          regs := regs[i := value];
        }
        writes := writes + 1;
        if regs[i] == value {
          return Success, i;
        }
        return DeviceError, index;
      }
      return NotFound, index;
    }

    /** PlatformWriteFirstFreeSpiProtect: a write that took effect is repeated at S3 resume. */
    method PlatformWriteFirstFree(direct: nat, base: nat, length: nat) returns (status: Status)
      requires direct < FOUR_GB
      modifies this`regs, this`writes, this`script
      ensures regs == AfterWrite(old(regs), locked, direct, base, length)
      ensures var free := FirstFree(old(regs)) < REGISTERS;
              && writes == old(writes) + (if free then 1 else 0)
              && status == (if !free then NotFound else if locked then DeviceError else Success)
      ensures status != Success ==> script == old(script)
      ensures status == Success ==> |script| == |old(script)| + 1 && old(script) <= script
      ensures old(Resumable()) ==> Resumable()
    {
      hide ValueFor;
      var index;
      status, index := WriteFirstFree(direct, base, length);
      if status == Success {
        ghost var before := script;
        script := script + [MemWrite(index, regs[index])];
        assert script[..|script| - 1] == before;
      }
    }

    /** PlatformIsSpiRangeProtected. */
    method IsRangeProtected(base: nat, length: nat) returns (r: bool)
      ensures r == RangeProtected(regs, base, length)
    {
      hide Enabled, BaseOf, LimitOf, Wrap;
      if length > 0 {
        var i := 0;
        var limit := Wrap(base + (length - 1));
        while i < REGISTERS
          invariant i <= REGISTERS
          invariant forall k :: 0 <= k < i ==> !Covers(regs[k], base, length)
        {
          var value := regs[i];
          if Enabled(value) {
            if base >= BaseOf(value) && limit <= LimitOf(value) {
              assert Covers(regs[i], base, length);
              return true;
            }
          }
          i := i + 1;
        }
      }
      return false;
    }

    /** The check and the write that the policy does for each of its two ranges. */
    method ProtectRange(base: nat, length: nat) returns (ok: bool)
      modifies this`regs, this`writes, this`script
      ensures regs == AfterProtect(old(regs), locked, base, length)
      ensures writes == old(writes) + WritesTried(old(regs), base, length)
      ensures ok <==> Succeeds(old(regs), locked, base, length)
      ensures old(Resumable()) ==> Resumable()
    {
      hide RangeProtected, AfterWrite, FirstFree, Replayed;
      ok := true;
      var done := IsRangeProtected(base, length);
      if !done {
        var status := PlatformWriteFirstFree(0, base, length);
        ok := status == Success;
      }
    }

    /** PlatformFlashLockPolicy: ok tells that no range write failed. */
    method FlashLockPolicy(c: Config, mode: BootMode, preBoot: bool) returns (ok: bool)
      requires c.Valid()
      modifies this
      ensures mode == OtherBoot ==> regs == AfterPolicy(old(regs), old(locked), c)
      ensures mode == OtherBoot ==> writes == old(writes) + PolicyWrites(old(regs), old(locked), c)
      ensures mode == OtherBoot ==>
                (ok <==> && Succeeds(old(regs), old(locked), 0, c.NvStart())
                         && Succeeds(AfterProtect(old(regs), old(locked), 0, c.NvStart()), old(locked),
                                     c.NvEnd(), c.flashSize - c.NvEnd()))
      ensures mode != OtherBoot ==> regs == old(regs) && script == old(script) && writes == old(writes) && ok
      ensures locked == (old(locked) || preBoot || mode != FlashUpdate)
      ensures variablesLocked == (old(variablesLocked) || preBoot)
      ensures old(Resumable()) ==> Resumable()
    {
      hide RangeProtected, AfterProtect, FirstFree, Replayed, WritesTried, Succeeds;
      ok := true;
      if mode != Recovery && mode != FlashUpdate {
        var first := ProtectRange(0, c.NvStart());
        var second := ProtectRange(c.NvEnd(), c.flashSize - c.NvEnd());
        ok := first && second;
      }
      if preBoot || mode != FlashUpdate {
        LockConfig();
      }
      if preBoot {
        variablesLocked := true;
      }
    }

    /** PlatformFlashLockConfig; a configuration that is locked stays so. */
    method LockConfig()
      modifies this`locked
      ensures locked
    {
      locked := true;
    }

    method Serve(call: Call)
      requires call.Valid()
      modifies this
      ensures Current() == AfterCall(old(Current()), call)
      ensures old(Resumable()) ==> Resumable()
    {
      hide AfterWrite, AfterPolicy, Replayed;
      match call {
        case WriteRange(direct, base, length) =>
          var status := PlatformWriteFirstFree(direct, base, length);
        case LockPolicy(config, mode, preBoot) =>
          var ok := FlashLockPolicy(config, mode, preBoot);
        case LockConfiguration =>
          LockConfig();
      }
    }

    /** Any sequence of calls. */
    method ServeAll(calls: seq<Call>)
      requires AllValid(calls)
      modifies this
      ensures Current() == AfterCalls(old(Current()), calls)
      ensures Grows(old(regs), regs)
      ensures forall base, length :: RangeProtected(old(regs), base, length) ==> RangeProtected(regs, base, length)
      ensures old(locked) ==> locked && regs == old(regs)
      ensures old(Resumable()) ==> Resumable()
    {
      hide AfterCall, Grows, RangeProtected, Replayed;
      for n := 0 to |calls|
        invariant Current() == AfterCalls(old(Current()), calls[..n])
        invariant old(Resumable()) ==> Resumable()
      {
        assert calls[..n + 1][..n] == calls[..n];
        Serve(calls[n]);
      }
      assert calls[..|calls|] == calls;
      RunKeepsProtection(old(Current()), calls);
    }
  }

  datatype Status = Success | NotFound | DeviceError

  // ---- What the policy protects ----

  const FREE: Registers := [0, 0, 0]

  lemma FreeProtectsNothing(at: nat, base: nat, length: nat)
    ensures !AnyProtects(FREE, at) && !RangeProtected(FREE, base, length)
  {
  }

  /** Protected bytes of flash, which ends at 4 GB, are exactly those whose CPU address is not in NV storage. */
  ghost predicate ProtectsExactly(regs: Registers, c: Config)
    requires c.Valid()
  {
    forall at: nat :: at < c.flashSize ==>
      (AnyProtects(regs, at) <==> !(c.nvBase <= 0x1_0000_0000 - c.flashSize + at < c.nvBase + c.nvSize))
  }

  lemma NvMeans(c: Config, at: nat)
    requires c.Valid()
    ensures c.InNv(at) <==> c.nvBase <= 0x1_0000_0000 - c.flashSize + at < c.nvBase + c.nvSize
  {
  }

  /** The first range after the first step. */
  lemma FirstRange(c: Config)
    requires c.Valid()
    ensures var regs := AfterProtect(FREE, false, 0, c.NvStart());
            && regs == [Enable(RangeValue(0, c.NvStart())), 0, 0] && Enabled(regs[0]) && BaseOf(regs[0]) == 0
            && LimitOf(regs[0]) == (if c.NvStart() == 0 then WINDOW else AlignUp(c.NvStart(), PAGE)) - 1
  {
    hide Enabled, BaseOf, LimitOf, Enable, RangeValue, RangeProtected, Covers, AlignUp;
    FreeProtectsNothing(0, 0, c.NvStart());
    if c.NvStart() == 0 {
      EmptyRangeAtZero();
    } else {
      AlignedRange(0, c.NvStart());
    }
  }

  /** One used register decides alone. */
  lemma OnlyFirst(value: nat, at: nat, base: nat, length: nat)
    ensures AnyProtects([value, 0, 0], at) <==> Protects(value, at)
    ensures RangeProtected([value, 0, 0], base, length) <==> Covers(value, base, length)
  {
    hide BaseOf, LimitOf, Wrap;
    var regs: Registers := [value, 0, 0];
    assert !Enabled(0);
    if Protects(value, at) {
      assert Protects(regs[0], at);
    }
    if Covers(value, base, length) {
      assert Covers(regs[0], base, length);
    }
  }

  lemma FirstTwo(value0: nat, value1: nat, at: nat)
    ensures AnyProtects([value0, value1, 0], at) <==> Protects(value0, at) || Protects(value1, at)
  {
    hide BaseOf, LimitOf;
    var regs: Registers := [value0, value1, 0];
    assert !Enabled(0);
    if Protects(value0, at) {
      assert Protects(regs[0], at);
    }
    if Protects(value1, at) {
      assert Protects(regs[1], at);
    }
  }

  /** The registers after the policy, starting from free ones: the second range is written unless the first
      register covers it. */
  lemma PolicyRegisters(c: Config)
    requires c.Valid()
    ensures var value0 := Enable(RangeValue(0, c.NvStart()));
            var value1 := Enable(RangeValue(c.NvEnd(), c.flashSize - c.NvEnd()));
            AfterPolicy(FREE, false, c)
            == if Covers(value0, c.NvEnd(), c.flashSize - c.NvEnd()) then [value0, 0, 0] else [value0, value1, 0]
  {
    hide Enabled, BaseOf, LimitOf, Enable, RangeValue, RangeProtected, Covers, AlignUp;
    FirstRange(c);
    var value0 := Enable(RangeValue(0, c.NvStart()));
    assert value0 != 0 by {
      RangeValueIsUsed(0, c.NvStart());
    }
    OnlyFirst(value0, 0, c.NvEnd(), c.flashSize - c.NvEnd());
  }

  /** On a normal boot from free registers the policy protects exactly the flash outside NV storage if and
      only if NV storage is made of whole pages and does not start the device. */
  lemma ProtectsExactlyWhen(c: Config)
    requires c.Valid()
    ensures ProtectsExactly(AfterPolicy(FREE, false, c), c)
       <==> var start := c.nvBase - (0x1_0000_0000 - c.flashSize);
            start > 0 && start % 0x1000 == 0 && (start + c.nvSize) % 0x1000 == 0
  {
    hide AfterPolicy, AnyProtects;
    var start, end := c.NvStart(), c.NvEnd();
    if start == 0 || start % PAGE != 0 {
      NvByteProtected(c);
    } else if end % PAGE != 0 {
      SharedPage(c);
    } else {
      forall at: nat | at < c.flashSize
        ensures AnyProtects(AfterPolicy(FREE, false, c), at)
           <==> !(c.nvBase <= 0x1_0000_0000 - c.flashSize + at < c.nvBase + c.nvSize)
      {
        NvMeans(c, at);
        AlignedNv(c, at);
      }
    }
  }

  lemma FirstNotCovering(c: Config)
    requires c.Valid() && c.NvStart() > 0 && c.NvStart() % PAGE == 0
    ensures !Covers(Enable(RangeValue(0, c.NvStart())), c.NvEnd(), c.flashSize - c.NvEnd())
  {
    hide Enabled, BaseOf, LimitOf, Enable, RangeValue, AlignUp;
    AlignedRange(0, c.NvStart());
    AlignUnique(c.NvStart(), PAGE, c.NvStart());
    WrapSmall(c.NvEnd() + (c.flashSize - c.NvEnd() - 1));
  }

  lemma AlignedNv(c: Config, at: nat)
    requires c.Valid() && at < c.flashSize
    requires c.NvStart() > 0 && c.NvStart() % PAGE == 0 && c.NvEnd() % PAGE == 0
    ensures AnyProtects(AfterPolicy(FREE, false, c), at) <==> !c.InNv(at)
  {
    hide Enabled, BaseOf, LimitOf, Enable, RangeValue, RangeProtected, Covers, AlignUp, AfterPolicy, AnyProtects;
    PolicyRegisters(c);
    FirstNotCovering(c);
    var length := c.flashSize - c.NvEnd();
    AlignedRange(0, c.NvStart());
    AlignUnique(c.NvStart(), PAGE, c.NvStart());
    AlignedRange(c.NvEnd(), length);
    FirstTwo(Enable(RangeValue(0, c.NvStart())), Enable(RangeValue(c.NvEnd(), length)), at);
  }

  /** If NV storage starts the device or starts inside a page, its first byte is protected. */
  lemma NvByteProtected(c: Config)
    requires c.Valid() && (c.NvStart() == 0 || c.NvStart() % PAGE != 0)
    ensures AnyProtects(AfterPolicy(FREE, false, c), c.NvStart()) && c.InNv(c.NvStart()) && c.NvStart() < c.flashSize
  {
    hide Enabled, BaseOf, LimitOf, Enable, RangeValue, RangeProtected, Covers, AlignUp, AfterPolicy, AnyProtects;
    PolicyRegisters(c);
    FirstRange(c);
    var value0 := Enable(RangeValue(0, c.NvStart()));
    var value1 := Enable(RangeValue(c.NvEnd(), c.flashSize - c.NvEnd()));
    OnlyFirst(value0, c.NvStart(), 0, 0);
    FirstTwo(value0, value1, c.NvStart());
  }

  /** If NV storage ends inside a page, the bytes on both sides of its end get the same protection. */
  lemma SharedPage(c: Config)
    requires c.Valid() && c.NvStart() > 0 && c.NvStart() % PAGE == 0 && c.NvEnd() % PAGE != 0
    ensures !ProtectsExactly(AfterPolicy(FREE, false, c), c)
  {
    hide Enabled, BaseOf, LimitOf, Enable, RangeValue, RangeProtected, Covers, AlignUp, AfterPolicy, AnyProtects;
    PolicyRegisters(c);
    FirstNotCovering(c);
    var end, length := c.NvEnd(), c.flashSize - c.NvEnd();
    var value0, value1 := Enable(RangeValue(0, c.NvStart())), Enable(RangeValue(end, length));
    AlignedRange(0, c.NvStart());
    AlignUnique(c.NvStart(), PAGE, c.NvStart());
    RangeValueIsUsed(end, length);
    PageOf(end);
    FirstTwo(value0, value1, end);
    FirstTwo(value0, value1, end - 1);
    assert c.InNv(end - 1) && !c.InNv(end);
  }

  lemma PageOf(x: nat)
    requires x < WINDOW && x % PAGE != 0
    ensures x / PAGE % PAGE * PAGE <= x - 1
  {
    DivModUnique(x / PAGE, PAGE, 0, x / PAGE);
  }

  /** Running the policy again, with NV storage of whole pages, changes no register. It does not try to
      either, unless NV storage starts the device. */
  lemma SecondRun(c: Config)
    requires c.Valid() && c.NvStart() % PAGE == 0 && c.NvEnd() % PAGE == 0
    ensures var regs := AfterPolicy(FREE, false, c);
            && AfterPolicy(regs, true, c) == regs
            && PolicyWrites(regs, true, c) == (if c.NvStart() > 0 then 0 else 1)
  {
    hide Enabled, BaseOf, LimitOf, Enable, RangeValue, AlignUp, RangeProtected, Covers, FirstFree;
    var regs := AfterPolicy(FREE, false, c);
    hide AfterPolicy;
    PolicyRegisters(c);
    var end, length := c.NvEnd(), c.flashSize - c.NvEnd();
    CoversWhole(c);
    if c.NvStart() > 0 {
      FoundAt(regs, 0, 0, c.NvStart());
    } else {
      EmptyNotProtected(regs, 0);
    }
    FoundAt(regs, if Covers(regs[0], end, length) then 0 else 1, end, length);
    ThirdIsFree(regs);
    PolicyUnchanged(regs, c);
  }

  lemma ThirdIsFree(regs: Registers)
    requires regs[2] == 0
    ensures FirstFree(regs) < REGISTERS
  {
  }

  /** A locked-down controller keeps its registers through the policy. */
  lemma PolicyUnchanged(regs: Registers, c: Config)
    requires c.Valid()
    ensures AfterProtect(regs, true, 0, c.NvStart()) == regs && AfterPolicy(regs, true, c) == regs
  {
    hide RangeProtected;
  }

  lemma CoversWhole(c: Config)
    requires c.Valid() && c.NvStart() % PAGE == 0 && c.NvEnd() % PAGE == 0
    ensures c.NvStart() > 0 ==> Covers(Enable(RangeValue(0, c.NvStart())), 0, c.NvStart())
    ensures var length := c.flashSize - c.NvEnd(); Covers(Enable(RangeValue(c.NvEnd(), length)), c.NvEnd(), length)
  {
    hide Enabled, BaseOf, LimitOf, Enable, RangeValue, AlignUp;
    if c.NvStart() > 0 {
      AlignedRange(0, c.NvStart());
      WrapSmall(c.NvStart() - 1);
    }
    AlignedRange(c.NvEnd(), c.flashSize - c.NvEnd());
    WrapSmall(c.flashSize - 1);
  }

  lemma FoundAt(regs: Registers, i: nat, base: nat, length: nat)
    requires i < REGISTERS && Covers(regs[i], base, length)
    ensures RangeProtected(regs, base, length)
  {
    hide Covers;
  }

  lemma EmptyNotProtected(regs: Registers, base: nat)
    ensures !RangeProtected(regs, base, 0)
  {
  }

  // ---- Runs ----

  lemma GrowsTwice(regs: Registers, regs1: Registers, regs2: Registers)
    requires Grows(regs, regs1) && Grows(regs1, regs2)
    ensures Grows(regs, regs2)
  {
  }

  /** A policy call overwrites no used register. */
  lemma PolicyGrows(regs: Registers, locked: bool, c: Config)
    requires c.Valid()
    ensures Grows(regs, AfterPolicy(regs, locked, c))
  {
    hide AfterWrite, RangeProtected, Grows;
    var regs1 := AfterProtect(regs, locked, 0, c.NvStart());
    SameGrows(regs);
    SameGrows(regs1);
    WriteGrows(regs, locked, 0, 0, c.NvStart());
    WriteGrows(regs1, locked, 0, c.NvEnd(), c.flashSize - c.NvEnd());
    GrowsTwice(regs, regs1, AfterPolicy(regs, locked, c));
  }

  lemma SameGrows(regs: Registers)
    ensures Grows(regs, regs)
  {
  }

  /** One call overwrites no used register, and none at all once the configuration is locked. */
  lemma CallGrows(s: Setup, call: Call)
    requires call.Valid()
    ensures Grows(s.regs, AfterCall(s, call).regs)
    ensures s.locked ==> AfterCall(s, call) == s
  {
    hide AfterWrite, AfterPolicy, RangeProtected, Grows;
    SameGrows(s.regs);
    match call
    case WriteRange(direct, base, length) =>
      WriteGrows(s.regs, s.locked, direct, base, length);
      if s.locked {
        LockedWrite(s.regs, direct, base, length);
      }
    case LockPolicy(config, mode, preBoot) =>
      PolicyGrows(s.regs, s.locked, config);
      if s.locked {
        PolicyUnchanged(s.regs, config);
      }
    case LockConfiguration =>
  }

  lemma LockedWrite(regs: Registers, direct: nat, base: nat, length: nat)
    ensures AfterWrite(regs, true, direct, base, length) == regs
  {
  }

  /** Whatever range writes, policy calls and locks are made: no used register is overwritten, no protected
      range loses its protection, and once the configuration is locked nothing changes any more. */
  lemma {:induction false} RunKeepsProtection(s: Setup, calls: seq<Call>)
    requires AllValid(calls)
    ensures var s' := AfterCalls(s, calls);
            && Grows(s.regs, s'.regs)
            && (forall base, length :: RangeProtected(s.regs, base, length) ==> RangeProtected(s'.regs, base, length))
            && (s.locked ==> s' == s)
    decreases |calls|
  {
    hide Covers, RangeProtected, Grows, AfterCall;
    if |calls| == 0 {
      SameGrows(s.regs);
    } else {
      var earlier, last := calls[..|calls| - 1], calls[|calls| - 1];
      RunKeepsProtection(s, earlier);
      var s1 := AfterCalls(s, earlier);
      CallGrows(s1, last);
      GrowsTwice(s.regs, s1.regs, AfterCalls(s, calls).regs);
    }
    forall base, length | RangeProtected(s.regs, base, length)
      ensures RangeProtected(AfterCalls(s, calls).regs, base, length)
    {
      GrowKeepsProtection(s.regs, AfterCalls(s, calls).regs, base, length);
    }
  }

  /** Locking the configuration somewhere in a run fixes the registers from there on. */
  lemma {:induction false} LockedForever(s: Setup, before: seq<Call>, after: seq<Call>)
    requires AllValid(before) && AllValid(after) && AfterCalls(s, before).locked
    ensures AfterCalls(s, before + after) == AfterCalls(s, before)
    decreases |after|
  {
    hide AfterCall;
    if |after| == 0 {
      assert before + after == before;
    } else {
      var earlier, last := after[..|after| - 1], after[|after| - 1];
      LockedForever(s, before, earlier);
      assert (before + after)[..|before + after| - 1] == before + earlier;
      CallGrows(AfterCalls(s, before), last);
    }
  }
}

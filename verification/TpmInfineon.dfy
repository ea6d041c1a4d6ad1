/**
 The Infineon I2C transport of the TPM. A run is a trace of delays and I2C transfers; the device may answer
 a read with anything.
 */
module TpmInfineon {
  import opened Bytes
  import opened TpmResponse

  const ACCESS: byte := 0x00
  const STS: byte := 0x01
  const BURST0: byte := 0x02
  const BURST1: byte := 0x03
  const FIFO: byte := 0x05

  const READ_RETRY: nat := 3
  const GUARD_TIME: nat := 250
  const TIMEOUT_A: nat := 750 * 1000
  const TIMEOUT_B: nat := 2000 * 1000
  const TIMEOUT_C: nat := 750 * 1000
  const TIMEOUT_D: nat := 750 * 1000
  const POLL_TIME: nat := 30

  const STS_READY: byte := 0x40
  const STS_GO: byte := 0x20
  const RQU_USE: byte := 0x02

  datatype Event =
    | Delay(us: nat)
    | I2cWrite(bytes: seq<byte>)
    | I2cRead(register: byte, value: byte)

  /** A register and the data written to it, or read from it. */
  type Transfer = (byte, byte)

  /** What a trace amounts to: the guard time still owed before a write and whether it was always kept, the
      register writes and reads in order, the FIFO bytes read, the time spent in delays, the low byte of the burst count read
      last, the FIFO bytes still allowed, and whether every FIFO write was allowed. */
  datatype Summary = Summary(owed: nat, guarded: bool, commands: seq<Transfer>, answers: seq<Transfer>, received: seq<byte>,
                             elapsed: nat, low: byte, credit: nat, within: bool)

  const START := Summary(0, true, [], [], [], 0, 0, 0, true)

  predicate IsFifoWrite(e: Event) { e.I2cWrite? && |e.bytes| == 2 && e.bytes[0] == 0x05 }

  function Announced(high: byte, low: byte): nat { high as nat * 0x100 + low as nat }

  function Count(s: Summary, e: Event): Summary {
    match e
    case Delay(us) => s.(owed := if us >= s.owed then 0 else s.owed - us, elapsed := s.elapsed + us)
    case I2cWrite(bytes) =>
      var s' := s.(guarded := s.guarded && s.owed == 0, owed := 0,
                   commands := s.commands + (if |bytes| == 2 then [(bytes[0], bytes[1])] else []));
      if IsFifoWrite(e) then
        s'.(within := s.within && s.credit > 0, credit := if s.credit > 0 then s.credit - 1 else 0)
      else s'
    case I2cRead(register, value) =>
      var s' := s.(owed := GUARD_TIME, answers := s.answers + [(register, value)]);
      if register == BURST0 then s'.(low := value)
      else if register == BURST1 then s'.(credit := Announced(value, s.low))
      else if register == FIFO then s'.(received := s.received + [value])
      else s'
  }

  function Summarize(t: seq<Event>): Summary {
    if t == [] then START else Count(Summarize(t[..|t| - 1]), t[|t| - 1])
  }

  lemma OneEvent(t: seq<Event>, e: Event)
    ensures Summarize(t + [e]) == Count(Summarize(t), e)
  {
    assert (t + [e])[..|t + [e]| - 1] == t;
  }

  // ---- What the summary means for the trace ----

  /** The delays among events i to j - 1. */
  function DelayIn(t: seq<Event>, i: nat, j: nat): nat
    requires i <= j <= |t|
  {
    if i == j then 0 else DelayIn(t, i, j - 1) + (if t[j - 1].Delay? then t[j - 1].us else 0)
  }

  /** The FIFO bytes written by events i to j - 1. */
  function FifoIn(t: seq<Event>, i: nat, j: nat): nat
    requires i <= j <= |t|
  {
    if i == j then 0 else FifoIn(t, i, j - 1) + (if IsFifoWrite(t[j - 1]) then 1 else 0)
  }

  /** Events i to j - 1 are delays. */
  predicate OnlyDelays(t: seq<Event>, i: nat, j: nat)
    requires i <= j <= |t|
  {
    forall k :: i <= k < j ==> t[k].Delay?
  }

  lemma PrefixStep(t: seq<Event>, j: nat)
    requires j < |t|
    ensures Summarize(t[..j + 1]) == Count(Summarize(t[..j]), t[j])
  {
    assert t[..j + 1] == t[..j] + [t[j]];
    OneEvent(t[..j], t[j]);
  }

  lemma {:induction false} OwedAfterRead(t: seq<Event>, i: nat, j: nat)
    requires i < j <= |t| && t[i].I2cRead? && OnlyDelays(t, i + 1, j)
    ensures Summarize(t[..j]).owed + DelayIn(t, i + 1, j) >= GUARD_TIME
    decreases j
  {
    hide Summarize;
    PrefixStep(t, j - 1);
    if i < j - 1 {
      OwedAfterRead(t, i, j - 1);
    }
  }

  lemma {:induction false} FlagsStay(t: seq<Event>, j: nat)
    requires j <= |t|
    ensures Summarize(t).guarded ==> Summarize(t[..j]).guarded
    ensures Summarize(t).within ==> Summarize(t[..j]).within
    decreases |t| - j
  {
    hide Summarize;
    if j < |t| {
      FlagsStay(t, j + 1);
      PrefixStep(t, j);
    } else {
      assert t[..j] == t;
    }
  }

  /** In a guarded trace a write that follows a read comes at least the guard time later. */
  lemma GuardTimeKept(t: seq<Event>, i: nat, j: nat)
    requires Summarize(t).guarded && i < j < |t|
    requires t[i].I2cRead? && t[j].I2cWrite? && OnlyDelays(t, i + 1, j)
    ensures DelayIn(t, i + 1, j) >= GUARD_TIME
  {
    hide Summarize;
    FlagsStay(t, j + 1);
    PrefixStep(t, j);
    OwedAfterRead(t, i, j);
  }

  lemma {:induction false} CreditLeft(t: seq<Event>, i: nat, j: nat)
    requires i < j <= |t| && t[i].I2cRead? && t[i].register == BURST1 && Summarize(t[..j]).within
    requires forall k :: i < k < j && t[k].I2cRead? ==> t[k].register != BURST1
    ensures Summarize(t[..j]).credit + FifoIn(t, i + 1, j)
         == Announced(t[i].value, Summarize(t[..i]).low)
    decreases j
  {
    hide Summarize, Announced;
    PrefixStep(t, j - 1);
    if i < j - 1 {
      CreditLeft(t, i, j - 1);
    }
  }

  /** Event h is the last read of the register before event i. */
  ghost predicate LastRead(t: seq<Event>, register: byte, h: nat, i: nat) {
    && h < i <= |t| && t[h].I2cRead? && t[h].register == register
    && forall k :: h < k < i && t[k].I2cRead? ==> t[k].register != register
  }

  lemma {:induction false} LowIsLastRead(t: seq<Event>, h: nat, i: nat)
    requires LastRead(t, 0x02, h, i)
    ensures Summarize(t[..i]).low == t[h].value
    decreases i
  {
    hide Summarize, Announced;
    PrefixStep(t, i - 1);
    if h < i - 1 {
      LowIsLastRead(t, h, i - 1);
    }
  }

  /** In a trace within its bursts, no more FIFO bytes follow a burst count than it says: its high byte read at i,
      its low byte at h. */
  lemma BurstKept(t: seq<Event>, h: nat, i: nat, j: nat)
    requires Summarize(t).within && LastRead(t, 0x02, h, i) && LastRead(t, 0x03, i, j)
    ensures FifoIn(t, i + 1, j) <= t[i].value as nat * 0x100 + t[h].value as nat
  {
    hide Summarize;
    FlagsStay(t, j);
    CreditLeft(t, i, j);
    LowIsLastRead(t, h, i);
  }

  /** Over the trace alone: every burst count bounds the FIFO bytes up to the next one. */
  ghost predicate KeepsBursts(t: seq<Event>) {
    forall h: nat, i: nat, j: nat :: LastRead(t, 0x02, h, i) && LastRead(t, 0x03, i, j) ==>
      FifoIn(t, i + 1, j) <= t[i].value as nat * 0x100 + t[h].value as nat
  }

  /** Over the trace alone: every write comes 250 us or more after the read before it. */
  ghost predicate KeepsGuardTime(t: seq<Event>) {
    forall i, j :: 0 <= i < j < |t| && t[i].I2cRead? && t[j].I2cWrite? && OnlyDelays(t, i + 1, j) ==>
      DelayIn(t, i + 1, j) >= 250
  }

  lemma WithinKeepsBursts(t: seq<Event>)
    ensures Summarize(t).within ==> KeepsBursts(t)
    ensures Summarize(t).guarded ==> KeepsGuardTime(t)
  {
    hide Summarize, FifoIn, DelayIn, OnlyDelays;
    if Summarize(t).within {
      forall h: nat, i: nat, j: nat | LastRead(t, 0x02, h, i) && LastRead(t, 0x03, i, j)
        ensures FifoIn(t, i + 1, j) <= t[i].value as nat * 0x100 + t[h].value as nat
      {
        BurstKept(t, h, i, j);
      }
    }
    if Summarize(t).guarded {
      forall i, j | 0 <= i < j < |t| && t[i].I2cRead? && t[j].I2cWrite? && OnlyDelays(t, i + 1, j)
        ensures DelayIn(t, i + 1, j) >= 250
      {
        GuardTimeKept(t, i, j);
      }
    }
  }


  // ---- Register bits ----

  /** A bit by its weight. */
  type Weight = n: nat | n > 0 witness 1

  const VALID: Weight := 0x80
  const ACC_ACTIVE: Weight := 0x20
  const READY: Weight := 0x40
  const DATA: Weight := 0x10
  const EXPECT: Weight := 0x08

  predicate Bit(value: byte, weight: Weight) { value as nat / weight % 2 == 1 }

  /** The value has all bits of bitSet and none of bitClear. */
  predicate HasBits(value: byte, bitSet: set<Weight>, bitClear: set<Weight>) {
    (forall w :: w in bitSet ==> Bit(value, w)) && forall w :: w in bitClear ==> !Bit(value, w)
  }

  // ---- What a transfer of a command looks like ----

  /** No FIFO byte is written in what was added to the trace. */
  ghost predicate Quiet(before: seq<Event>, after: seq<Event>) {
    before <= after && forall k :: |before| <= k < |after| ==> !IsFifoWrite(after[k])
  }

  /** Nothing but this register is read in it. */
  ghost predicate ReadsOnly(before: seq<Event>, after: seq<Event>, register: byte) {
    forall k :: |before| <= k < |after| && after[k].I2cRead? ==> after[k].register == register
  }

  /** No value read had these bits, but for an 0xFF that was tried again. */
  ghost predicate NeverSaid(before: seq<Event>, after: seq<Event>, bitSet: set<Weight>, bitClear: set<Weight>) {
    forall k :: |before| <= k < |after| && after[k].I2cRead? ==>
      after[k].value == 0xFF || !HasBits(after[k].value, bitSet, bitClear)
  }

  /** The device said that it is ready. */
  ghost predicate SaysReady(e: Event) { e.I2cRead? && e.register == 0x01 && e.value as nat / 64 % 2 == 1 }

  /** The device said that it expects no more bytes of the command. */
  ghost predicate SaysWhole(e: Event) {
    e.I2cRead? && e.register == 0x01 && e.value as nat / 128 % 2 == 1 && e.value as nat / 8 % 2 == 0
  }

  /** The device said that an answer is there. */
  ghost predicate SaysData(e: Event) {
    e.I2cRead? && e.register == 0x01 && e.value as nat / 128 % 2 == 1 && e.value as nat / 16 % 2 == 1
  }

  /** The device said that this locality has it. */
  ghost predicate SaysActive(e: Event) {
    e.I2cRead? && e.register == 0x00 && e.value as nat / 128 % 2 == 1 && e.value as nat / 32 % 2 == 1
  }

  /** Nothing but the status was read before the device said that an answer is there. */
  ghost predicate AnsweredFirst(before: seq<Event>, after: seq<Event>) {
    exists k: nat :: |before| <= k < |after| && SaysData(after[k]) && ReadsOnly(before, after[..k + 1], 0x01)
  }

  lemma AnsweredNow(before: seq<Event>, seen: seq<Event>)
    requires |before| < |seen| && SaysData(seen[|seen| - 1]) && ReadsOnly(before, seen, 0x01)
    ensures AnsweredFirst(before, seen)
  {
    var k: nat := |seen| - 1;
    assert seen[..k + 1] == seen && SaysData(seen[k]);
  }

  lemma AnsweredLonger(before: seq<Event>, seen: seq<Event>, after: seq<Event>)
    requires AnsweredFirst(before, seen) && seen <= after
    ensures AnsweredFirst(before, after)
  {
    var k: nat :| |before| <= k < |seen| && SaysData(seen[k]) && ReadsOnly(before, seen[..k + 1], 0x01);
    assert after[..k + 1] == seen[..k + 1] && after[k] == seen[k];
  }

  /** Command bytes go out only after the device said that it is ready, and the command is started last, after the
      device said that it expects no more of them. */
  ghost predicate StartedInOrder(before: seq<Event>, after: seq<Event>) {
    exists k: nat, n: nat ::
      && |before| <= k < n < |after| && SaysReady(after[k]) && Quiet(before, after[..k])
      && SaysWhole(after[n]) && Quiet(after[..n], after)
      && after[|after| - 1] == I2cWrite([0x01, 0x20])
  }

  /** The count that was read last: the high byte and, before it, the low byte. */
  ghost predicate SaysCount(t: seq<Event>, burst: nat) {
    exists h: nat, i: nat :: LastRead(t, 0x02, h, i) && LastRead(t, 0x03, i, |t|)
                             && burst == t[i].value as nat * 0x100 + t[h].value as nat
  }

  /** The low byte of the count is the last event of a, its high byte the last one of b, and nothing is read after. */
  lemma CountRead(a: seq<Event>, b: seq<Event>, t: seq<Event>)
    requires |a| > 0 && a[|a| - 1].I2cRead? && a[|a| - 1].register == 0x02
    requires |a| < |b| && a <= b && ReadsOnly(a, b, 0x03) && b[|b| - 1].I2cRead? && b[|b| - 1].register == 0x03
    requires b <= t && forall k :: |b| <= k < |t| ==> !t[k].I2cRead?
    ensures SaysCount(t, b[|b| - 1].value as nat * 0x100 + a[|a| - 1].value as nat)
  {
    var h: nat, i: nat := |a| - 1, |b| - 1;
    assert t[h] == a[h] && t[i] == b[i];
    assert LastRead(t, 0x02, h, i) && LastRead(t, 0x03, i, |t|);
  }

  /** n reads of a register, all but the last answered by 0xFF. */
  function Tries(register: byte, n: nat, value: byte): (r: seq<Transfer>)
    requires n > 0
    ensures |r| == n
  {
    seq(n, i requires 0 <= i < n => (register, if i < n - 1 then 0xFF else value))
  }

  lemma MoreTries(register: byte, n: nat, value: byte)
    requires n > 0
    ensures Tries(register, n, 0xFF) + [(register, value)] == Tries(register, n + 1, value)
  {
  }

  /** The access register was read next, and its last try was not answered by 0xFF. */
  ghost predicate Answered(before: seq<Transfer>, after: seq<Transfer>) {
    exists n: nat, value: byte :: 0 < n <= READ_RETRY && value != 0xFF && before + Tries(ACCESS, n, value) <= after
  }

  lemma OneTry(register: byte, value: byte)
    ensures Tries(register, 1, value) == [(register, value)]
  {
  }

  function Data(buffer: seq<byte>): (r: seq<Transfer>)
    ensures |r| == |buffer|
  {
    seq(|buffer|, i requires 0 <= i < |buffer| => (FIFO, buffer[i]))
  }

  lemma MoreData(buffer: seq<byte>, k: nat)
    requires k < |buffer|
    ensures Data(buffer[..k + 1]) == Data(buffer[..k]) + [(FIFO, buffer[k])]
  {
  }

  // ---- The driver ----

  class Tpm {
    /** mI2CPrevReadTransfer. */
    var prevRead: bool
    ghost var trace: seq<Event>

    constructor ()
      ensures Valid() && trace == [] && !prevRead
    {
      prevRead := false;
      trace := [];
    }

    ghost function Seen(): Summary
      reads this
    {
      Summarize(trace)
    }

    /** Guard time was always kept, and what is owed of it is known to be. */
    ghost predicate Valid()
      reads this
    {
      Seen().guarded && (Seen().owed > 0 ==> prevRead) && Seen().owed <= GUARD_TIME
    }

    /** Time passes; no register is accessed. */
    ghost predicate Idle(s: Summary)
      reads this
    {
      && Seen().commands == s.commands && Seen().answers == s.answers && Seen().elapsed >= s.elapsed
      && Seen().low == s.low && Seen().credit == s.credit && Seen().within == s.within
      && Seen().received == s.received
    }

    // The bus and the clock.

    method MicroSecondDelay(us: nat)
      modifies this`trace
      ensures trace == old(trace) + [Delay(us)] && Seen() == Count(old(Seen()), Delay(us))
    {
      OneEvent(trace, Delay(us));
      trace := trace + [Delay(us)];
    }

    method I2cWriteBytes(bytes: seq<byte>)
      modifies this`trace
      ensures trace == old(trace) + [I2cWrite(bytes)] && Seen() == Count(old(Seen()), I2cWrite(bytes))
    {
      OneEvent(trace, I2cWrite(bytes));
      trace := trace + [I2cWrite(bytes)];
    }

    /** A failed transfer reads as 0xFF. */
    method I2cReadByte(register: byte) returns (value: byte)
      modifies this`trace
      ensures trace == old(trace) + [I2cRead(register, value)] && Seen() == Count(old(Seen()), I2cRead(register, value))
    {
      value := *;
      OneEvent(trace, I2cRead(register, value));
      trace := trace + [I2cRead(register, value)];
    }

    /** Waits for the guard time after a read. */
    method Guard()
      requires Valid()
      modifies this`trace
      ensures Valid() && Seen().owed == 0 && Idle(old(Seen()))
      ensures Quiet(old(trace), trace) && forall k :: |old(trace)| <= k < |trace| ==> !trace[k].I2cRead?
    {
      hide Summarize;
      if prevRead {
        MicroSecondDelay(GUARD_TIME);
      }
    }

    method TpmWriteByte(register: byte, data: byte)
      requires Valid()
      modifies this
      ensures Valid()
      ensures |trace| > 0 && trace[|trace| - 1] == I2cWrite([register, data])
      ensures Seen().commands == old(Seen()).commands + [(register, data)] && Seen().answers == old(Seen()).answers
      ensures Seen().low == old(Seen()).low && Seen().elapsed >= old(Seen()).elapsed
      ensures Seen().received == old(Seen()).received
      ensures register != FIFO ==> Seen().credit == old(Seen()).credit && Seen().within == old(Seen()).within
      ensures register == FIFO && old(Seen()).credit > 0 ==>
                Seen().credit == old(Seen()).credit - 1 && Seen().within == old(Seen()).within
      ensures old(trace) <= trace && (register != FIFO ==> Quiet(old(trace), trace))
      ensures forall k :: |old(trace)| <= k < |trace| ==> !trace[k].I2cRead?
    {
      hide Summarize;
      Guard();
      I2cWriteBytes([register, data]);
      prevRead := false;
    }

    /** One transfer of the register number and one of its value. */
    method ReadOnce(register: byte) returns (value: byte)
      requires Valid()
      modifies this
      ensures forall k :: |old(trace)| <= k < |trace| - 1 ==> !trace[k].I2cRead?
      ensures Valid() && prevRead && |trace| > |old(trace)| && trace[|trace| - 1] == I2cRead(register, value)
      ensures Seen().commands == old(Seen()).commands && Seen().within == old(Seen()).within
      ensures Seen().elapsed >= old(Seen()).elapsed && Quiet(old(trace), trace) && ReadsOnly(old(trace), trace, register)
      ensures Seen().answers == old(Seen()).answers + [(register, value)]
      ensures Seen().low == if register == BURST0 then value else old(Seen()).low
      ensures Seen().credit == if register == BURST1 then Announced(value, old(Seen()).low) else old(Seen()).credit
      ensures Seen().received == old(Seen()).received + (if register == FIFO then [value] else [])
    {
      hide Summarize, Announced;
      Guard();
      I2cWriteBytes([register]);
      prevRead := false;
      value := I2cReadByte(register);
      prevRead := true;
    }

    /** Reads a register, up to three times as long as it answers 0xFF; the FIFO is read once. */
    method TpmReadByte(register: byte) returns (value: byte)
      requires Valid()
      modifies this
      ensures Valid()
      ensures |trace| > |old(trace)| && trace[|trace| - 1] == I2cRead(register, value)
      ensures Seen().commands == old(Seen()).commands && Seen().within == old(Seen()).within
      ensures Seen().elapsed >= old(Seen()).elapsed
      ensures |Seen().answers| > |old(Seen()).answers|
      ensures var n: nat := |Seen().answers| - |old(Seen()).answers|;
              && Seen().answers == old(Seen()).answers + Tries(register, n, value)
              && n <= READ_RETRY && (n < READ_RETRY && register != FIFO ==> value != 0xFF) && (register == FIFO ==> n == 1)
      ensures Seen().low == if register == BURST0 then value else old(Seen()).low
      ensures Seen().credit == if register == BURST1 then Announced(value, old(Seen()).low) else old(Seen()).credit
      ensures Seen().received == old(Seen()).received + (if register == FIFO then [value] else [])
      ensures Quiet(old(trace), trace) && ReadsOnly(old(trace), trace, register)
      ensures forall k :: |old(trace)| <= k < |trace| - 1 && trace[k].I2cRead? ==> trace[k].value == 0xFF
    {
      hide Summarize, Announced, Count, Tries;
      value := 0xFF;
      var count: nat := 0;
      ghost var n: nat := 0;
      ghost var s := Seen();
      while value == 0xFF && count < READ_RETRY
        invariant Valid() && count <= READ_RETRY && Quiet(old(trace), trace) && ReadsOnly(old(trace), trace, register)
        invariant n == 0 ==> value == 0xFF && count == 0 && Idle(s) && trace == old(trace)
        invariant forall k :: |old(trace)| <= k < |trace| - 1 && trace[k].I2cRead? ==> trace[k].value == 0xFF
        invariant n > 0 ==>
                    && |trace| > |old(trace)| && trace[|trace| - 1] == I2cRead(register, value)
                    && Seen().answers == s.answers + Tries(register, n, value)
                    && Seen().low == (if register == BURST0 then value else s.low)
                    && Seen().credit == (if register == BURST1 then Announced(value, s.low) else s.credit)
                    && Seen().received == s.received + (if register == FIFO then [value] else [])
                    && n <= READ_RETRY && (if register == FIFO then count == READ_RETRY && n == 1 else count == n)
        invariant Seen().commands == s.commands && Seen().within == s.within && Seen().elapsed >= s.elapsed
        decreases READ_RETRY - count
      {
        value := ReadOnce(register);
        if n > 0 {
          MoreTries(register, n, value);
          assert s.answers + Tries(register, n, 0xFF) + [(register, value)]
              == s.answers + (Tries(register, n, 0xFF) + [(register, value)]);
        } else {
          OneTry(register, value);
        }
        n := n + 1;
        if register == FIFO {
          count := READ_RETRY;
        } else {
          count := count + 1;
        }
      }
    }

    /** TisPcWaitRegisterBits: success rests on the value read last, a timeout on time that passed. */
    method WaitRegisterBits(register: byte, bitSet: set<Weight>, bitClear: set<Weight>, timeout: nat) returns (status: Status)
      requires Valid() && timeout > 0
      modifies this
      ensures old(Seen()).answers <= Seen().answers
      ensures Valid() && (status == Success || status == Timeout)
      ensures Seen().commands == old(Seen()).commands && Seen().within == old(Seen()).within
      ensures Seen().elapsed >= old(Seen()).elapsed
      ensures status == Success ==>
                && |trace| > |old(trace)| && trace[|trace| - 1].I2cRead? && trace[|trace| - 1].register == register
                && HasBits(trace[|trace| - 1].value, bitSet, bitClear)
      ensures status == Timeout ==> Seen().elapsed >= old(Seen()).elapsed + timeout
      ensures status == Timeout ==> NeverSaid(old(trace), trace, bitSet, bitClear)
      ensures register != BURST1 ==> Seen().credit == old(Seen()).credit
      ensures register != FIFO ==> Seen().received == old(Seen()).received
      ensures Quiet(old(trace), trace) && ReadsOnly(old(trace), trace, register)
    {
      hide Summarize, HasBits, Tries;
      var waited := 0;
      while waited < timeout
        invariant Valid() && Seen().commands == old(Seen()).commands && Seen().within == old(Seen()).within
        invariant old(Seen()).answers <= Seen().answers
        invariant Seen().elapsed >= old(Seen()).elapsed + waited && NeverSaid(old(trace), trace, bitSet, bitClear)
        invariant Quiet(old(trace), trace) && ReadsOnly(old(trace), trace, register)
        invariant register != BURST1 ==> Seen().credit == old(Seen()).credit
        invariant register != FIFO ==> Seen().received == old(Seen()).received
      {
        var value := TpmReadByte(register);
        if HasBits(value, bitSet, bitClear) {
          return Success;
        }
        MicroSecondDelay(POLL_TIME);
        waited := waited + POLL_TIME;
      }
      return Timeout;
    }

    /** TisPcReadBurstCount: a count that is not 0 is what the device announced last. */
    method ReadBurstCount() returns (status: Status, burst: nat)
      requires Valid()
      modifies this
      ensures Valid() && (status == Success || status == Timeout)
      ensures Seen().commands == old(Seen()).commands && Seen().within == old(Seen()).within
      ensures Seen().elapsed >= old(Seen()).elapsed && Seen().received == old(Seen()).received
      ensures burst == Seen().credit && (status == Success <==> burst > 0)
      ensures SaysCount(trace, burst)
      ensures status == Timeout ==> Seen().elapsed >= old(Seen()).elapsed + 750_000
      ensures Quiet(old(trace), trace)
    {
      hide Summarize, Tries, SaysCount;
      var waited := 0;
      while true
        invariant Valid() && Seen().commands == old(Seen()).commands && Seen().within == old(Seen()).within
        invariant Seen().elapsed >= old(Seen()).elapsed + waited && waited < TIMEOUT_D
        invariant Seen().received == old(Seen()).received && Quiet(old(trace), trace)
        decreases TIMEOUT_D - waited
      {
        var low := TpmReadByte(BURST0);
        ghost var atLow := trace;
        var high := TpmReadByte(BURST1);
        ghost var atHigh := trace;
        burst := Announced(high, low);
        CountRead(atLow, atHigh, trace);
        if burst != 0 {
          return Success, burst;
        }
        MicroSecondDelay(POLL_TIME);
        waited := waited + POLL_TIME;
        CountRead(atLow, atHigh, trace);
        if waited >= TIMEOUT_D {
          return Timeout, burst;
        }
      }
    }

    /** TisPcPrepareCommand. */
    method PrepareCommand() returns (status: Status)
      requires Valid()
      modifies this
      ensures Valid() && (status == Success || status == Timeout)
      ensures Seen().commands == old(Seen()).commands + [(0x01, 0x40)] && Seen().within == old(Seen()).within
      ensures Seen().elapsed >= old(Seen()).elapsed
      ensures Quiet(old(trace), trace)
      ensures status == Success ==> |trace| > |old(trace)| && SaysReady(trace[|trace| - 1])
      ensures status == Timeout ==>
                && (forall k :: |old(trace)| <= k < |trace| && SaysReady(trace[k]) ==> trace[k].value == 0xFF)
                && Seen().elapsed >= old(Seen()).elapsed + 2_000_000
      ensures Seen().received == old(Seen()).received
    {
      hide Summarize;
      TpmWriteByte(STS, STS_READY);
      status := WaitRegisterBits(STS, {READY}, {}, TIMEOUT_B);
      assert forall e :: SaysReady(e) ==> HasBits(e.value, {READY}, {});
      if status == Success {
        assert Bit(trace[|trace| - 1].value, READY);
      }
    }

    /** Tpm12RequestUseTpm. */
    method RequestUseTpm() returns (status: Status)
      requires Valid()
      modifies this
      ensures Valid() && Seen().within == old(Seen()).within
      ensures status == Success || status == NotFound || status == Timeout
      ensures status == NotFound ==>
                && Seen().commands == old(Seen()).commands
                && Seen().answers == old(Seen()).answers + Tries(ACCESS, READ_RETRY, 0xFF)
      ensures status != NotFound ==>
                && Seen().commands == old(Seen()).commands + [(0x00, 0x02)]
                && Answered(old(Seen()).answers, Seen().answers)
      ensures status == Success ==> |trace| > |old(trace)| && SaysActive(trace[|trace| - 1])
      ensures status == Timeout ==> Seen().elapsed >= old(Seen()).elapsed + 750_000
      ensures Quiet(old(trace), trace) && KeepsGuardTime(trace)
    {
      hide Summarize,  KeepsGuardTime, KeepsBursts;
      var access := TpmReadByte(ACCESS);
      WithinKeepsBursts(trace);
      if access == 0xFF {
        return NotFound;
      }
      ghost var n: nat := |Seen().answers| - |old(Seen()).answers|;
      assert old(Seen()).answers + Tries(ACCESS, n, access) <= Seen().answers;
      TpmWriteByte(ACCESS, RQU_USE);
      WithinKeepsBursts(trace);
      status := WaitRegisterBits(ACCESS, {ACC_ACTIVE, VALID}, {}, TIMEOUT_A);
      WithinKeepsBursts(trace);
      if status == Success {
        assert Bit(trace[|trace| - 1].value, ACC_ACTIVE) && Bit(trace[|trace| - 1].value, VALID);
      }
    }

    /** The bytes that the sender puts into the FIFO, until the device stops announcing bursts. */
    method SendBytes(buffer: seq<byte>) returns (status: Status, ghost sent: nat)
      requires Valid()
      modifies this
      ensures Valid() && (status == Success || status == Timeout)
      ensures sent <= |buffer| && (status == Success <==> sent == |buffer|)
      ensures Seen().commands == old(Seen()).commands + Data(buffer[..sent])
      ensures old(Seen()).within ==> Seen().within
      ensures old(trace) <= trace
      ensures Seen().received == old(Seen()).received
    {
      hide Summarize, Data;
      NoData(buffer);
      var index := 0;
      while index < |buffer|
        invariant index <= |buffer| && Valid() && old(trace) <= trace
          && Seen().received == old(Seen()).received
        invariant Seen().commands == old(Seen()).commands + Data(buffer[..index])
        invariant old(Seen()).within ==> Seen().within
      {
        var burst;
        status, burst := ReadBurstCount();
        if status != Success {
          return Timeout, index;
        }
        ghost var start := index;
        while burst > 0 && index < |buffer|
          invariant start <= index <= |buffer| && Valid() && burst == Seen().credit
          invariant index > start || burst > 0
          invariant old(trace) <= trace && Seen().received == old(Seen()).received
          invariant Seen().commands == old(Seen()).commands + Data(buffer[..index])
          invariant old(Seen()).within ==> Seen().within
          decreases burst
        {
          TpmWriteByte(FIFO, buffer[index]);
          MoreData(buffer, index);
          assert old(Seen()).commands + Data(buffer[..index]) + [(FIFO, buffer[index])]
              == old(Seen()).commands + (Data(buffer[..index]) + [(FIFO, buffer[index])]);
          index := index + 1;
          burst := burst - 1;
        }
      }
      return Success, index;
    }

    /** TisPcSend: on success the register writes are ready, every command byte in order exactly once, and go;
        otherwise ready, a prefix of the command, and ready again. No FIFO byte exceeds the burst count
        announced last. */
    method TisPcSend(buffer: seq<byte>) returns (status: Status, ghost sent: nat)
      requires Valid()
      modifies this
      ensures Valid() && (status == Success || status == Timeout)
      ensures sent <= |buffer| && (status == Success ==> sent == |buffer|)
      ensures Seen().commands == old(Seen()).commands + [(0x01, 0x40)] + Data(buffer[..sent])
                                 + [(0x01, if status == Success then 0x20 else 0x40)]
      ensures old(Seen()).within ==> Seen().within && KeepsBursts(trace)
      ensures old(trace) <= trace && KeepsGuardTime(trace)
      ensures status == Success ==> StartedInOrder(old(trace), trace)
      ensures Seen().received == old(Seen()).received
    {
      hide Summarize, Data,  KeepsGuardTime, KeepsBursts;
      NoData(buffer);
      sent := 0;
      status := PrepareCommand();
      ghost var ready := |trace| - 1;
      if status == Success {
        status, sent := SendBytes(buffer);
        if status == Success {
          status := WaitRegisterBits(STS, {VALID}, {EXPECT}, TIMEOUT_C);
          if status == Success {
            ghost var whole := |trace| - 1;
            assert Bit(trace[whole].value, VALID) && !Bit(trace[whole].value, EXPECT);
            TpmWriteByte(STS, STS_GO);
            assert SaysReady(trace[ready]) && SaysWhole(trace[whole]);
          }
        }
      }
      if status != Success {
        TpmWriteByte(STS, STS_READY);
      }
      WithinKeepsBursts(trace);
    }

    /** Reads FIFO bytes of one burst into the buffer, up to end, and gives back what is left of the burst.
        The byte that reaches end is not taken off it. */
    method ReadBurst(buffer: array<byte>, index: nat, end: nat, burst: nat) returns (next: nat, left: nat)
      requires Valid() && index < end <= buffer.Length
      modifies this, buffer
      ensures Valid() && index <= next <= end && (burst > 0 ==> next > index)
      ensures buffer[..index] == old(buffer[..index]) && buffer[next..] == old(buffer[next..])
      ensures Seen().received == old(Seen()).received + buffer[index..next]
      ensures Seen().commands == old(Seen()).commands && Seen().within == old(Seen()).within
      ensures next < end ==> left == 0
      ensures Quiet(old(trace), trace)
    {
      hide Summarize, Tries, Announced;
      next, left := index, burst;
      while left > 0
        invariant Valid() && index <= next < end && (next == index ==> left == burst)
        invariant buffer[..index] == old(buffer[..index]) && buffer[next..] == old(buffer[next..])
        invariant Seen().received == old(Seen()).received + buffer[index..next]
        invariant Seen().commands == old(Seen()).commands && Seen().within == old(Seen()).within
        invariant Quiet(old(trace), trace)
        decreases left
      {
        var value := TpmReadByte(FIFO);
        ghost var before := buffer[..];
        buffer[next] := value;
        assert buffer[index..next + 1] == before[index..next] + [value];
        assert buffer[next + 1..] == before[next + 1..] == old(buffer[next + 1..]);
        assert old(Seen()).received + before[index..next] + [value] == old(Seen()).received + buffer[index..next + 1];
        next := next + 1;
        if next == end {
          break;
        }
        left := left - 1;
      }
    }

    /** Reads FIFO bytes until index reaches end or the device announces no burst in time. */
    method ReadUpTo(buffer: array<byte>, index: nat, end: nat, burst: nat) returns (status: Status, next: nat, left: nat)
      requires Valid() && index <= end <= buffer.Length
      modifies this, buffer
      ensures Valid() && index <= next <= end && (status == Success || status == Timeout)
      ensures status == Success <==> next == end
      ensures buffer[..index] == old(buffer[..index]) && buffer[next..] == old(buffer[next..])
      ensures Seen().received == old(Seen()).received + buffer[index..next]
      ensures Seen().commands == old(Seen()).commands && Seen().within == old(Seen()).within
      ensures Quiet(old(trace), trace)
    {
      hide Summarize, Tries, Announced;
      next, left := index, burst;
      while next < end
        invariant Valid() && index <= next <= end
        invariant buffer[..index] == old(buffer[..index]) && buffer[next..] == old(buffer[next..])
        invariant Seen().received == old(Seen()).received + buffer[index..next]
        invariant Seen().commands == old(Seen()).commands && Seen().within == old(Seen()).within
        invariant Quiet(old(trace), trace)
        decreases end - next, if left > 0 then 0 else 1
      {
        if left == 0 {
          status, left := ReadBurstCount();
          if status != Success {
            return Timeout, next, left;
          }
        }
        ghost var before, at := buffer[..], next;
        next, left := ReadBurst(buffer, next, end, left);
        assert buffer[index..next] == before[index..at] + buffer[at..next];
        assert buffer[next..] == before[next..] == old(buffer[next..]);
      }
      return Success, next, left;
    }

    /** Reads the header, and as much behind it as it says. */
    method ReadResponse(buffer: array<byte>, size: nat) returns (status: Status, respSize: nat, ghost got: nat)
      requires Valid() && HEADER <= buffer.Length && size <= buffer.Length
      modifies this, buffer
      ensures Valid() && got <= buffer.Length && Quiet(old(trace), trace)
      ensures Seen().received == old(Seen()).received + buffer[..got] && buffer[got..] == old(buffer[got..])
      ensures Seen().commands == old(Seen()).commands && Seen().within == old(Seen()).within
      ensures status == Timeout <==> got < HEADER
      ensures got < HEADER ==> respSize == size
      ensures got >= HEADER ==>
                match Judge(buffer[..HEADER], size)
                case Stop(verdict) => status == verdict && got == HEADER && respSize == size
                case ReadOn(total) =>
                  respSize == total && got <= total && status == (if got == total then Success else DeviceError)
    {
      hide Summarize, Judge;
      respSize := size;
      var index, left;
      status, index, left := ReadUpTo(buffer, 0, HEADER, 0);
      got := index;
      if status == Success {
        JudgedSize(buffer[..HEADER], size);
        match Judge(buffer[..HEADER], size) {
          case Stop(verdict) =>
            status := verdict;
          case ReadOn(total) =>
            respSize := total;
            ghost var header := buffer[..HEADER];
            ghost var before := buffer[..];
            status, index, left := ReadUpTo(buffer, HEADER, total, left);
            if status != Success {
              status := DeviceError;
            }
            got := index;
            assert buffer[..got] == header + buffer[HEADER..got];
            assert buffer[got..] == before[got..] == old(buffer[got..]);
        }
      }
    }

    /** TisPcReceive: the bytes from the FIFO are in the buffer in order, as many as a header or as the header
        says, none before the device said that an answer is there, and the device is told to be ready whatever
        happened. */
    method TisPcReceive(buffer: array<byte>, size: nat) returns (status: Status, respSize: nat, ghost got: nat)
      requires Valid() && HEADER <= buffer.Length && size <= buffer.Length
      modifies this, buffer
      ensures Valid() && got <= buffer.Length && Quiet(old(trace), trace) && KeepsGuardTime(trace)
      ensures got > 0 ==> AnsweredFirst(old(trace), trace)
      ensures Seen().received == old(Seen()).received + buffer[..got] && buffer[got..] == old(buffer[got..])
      ensures Seen().commands == old(Seen()).commands + [(0x01, 0x40)] && Seen().within == old(Seen()).within
      ensures status == Timeout <==> got < HEADER
      ensures got < HEADER ==> respSize == size
      ensures got >= HEADER ==>
                match Judge(buffer[..HEADER], size)
                case Stop(verdict) => status == verdict && got == HEADER && respSize == size
                case ReadOn(total) =>
                  respSize == total && got <= total && status == (if got == total then Success else DeviceError)
    {
      hide Summarize, Judge, AnsweredFirst, KeepsGuardTime, KeepsBursts;
      got, respSize := 0, size;
      status := WaitRegisterBits(STS, {VALID, DATA}, {}, TIMEOUT_B);
      ghost var seen := trace;
      if status == Success {
        assert Bit(seen[|seen| - 1].value, VALID) && Bit(seen[|seen| - 1].value, DATA);
        AnsweredNow(old(trace), seen);
        status, respSize, got := ReadResponse(buffer, size);
      }
      TpmWriteByte(STS, STS_READY);
      if got > 0 {
        AnsweredLonger(old(trace), seen, trace);
      }
      WithinKeepsBursts(trace);
    }

    /** Tpm12SubmitCommand: a command that was not sent is not answered. */
    method SubmitCommand(command: seq<byte>, buffer: array<byte>, size: nat) returns (status: Status, respSize: nat)
      requires Valid() && HEADER <= buffer.Length && size <= buffer.Length
      modifies this, buffer
      ensures Valid() && old(trace) <= trace && KeepsGuardTime(trace)
      ensures old(Seen()).within ==> Seen().within && KeepsBursts(trace)
      ensures status == Success ==>
                Seen().commands == old(Seen()).commands + [(0x01, 0x40)] + Data(command) + [(0x01, 0x20), (0x01, 0x40)]
      ensures status == Success ==>
                var n := ParamSize(buffer[..HEADER]);
                && HEADER <= n <= buffer.Length && GoodTag(buffer[..HEADER])
                && Seen().received == old(Seen()).received + buffer[..n]
    {
      hide Summarize, Data, ParamSize, GoodTag, KeepsGuardTime, KeepsBursts;
      respSize := size;
      ghost var sent;
      status, sent := TisPcSend(command);
      if status == Success {
        assert command[..sent] == command;
        ghost var got;
        status, respSize, got := TisPcReceive(buffer, size);
        WithinKeepsBursts(trace);
      }
    }
  }

  lemma NoData(buffer: seq<byte>)
    ensures Data(buffer[..0]) == []
  {
  }
}
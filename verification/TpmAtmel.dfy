/**
 The Atmel I2C transport of the TPM: transfers in chunks, repeated until they succeed or the time is up. Time
 is measured with a performance counter that wraps, in 64-bit arithmetic that wraps too.
 */
module TpmAtmel {
  import opened Bytes
  import opened TpmResponse

  const MAX_TRANSFER: nat := 0x10
  const TIMEOUT_A: nat := 750 * 1000
  const TWO_63: int := 0x8000_0000_0000_0000
  const TWO_64: int := 0x1_0000_0000_0000_0000

  // ---- The counter ----

  function Wrap(x: int): (r: nat)
    ensures r < TWO_64
  {
    x % TWO_64
  }

  /** A conversion to a signed 64-bit value. */
  function Signed(x: int): (r: int)
    ensures -TWO_63 <= r < TWO_63
  {
    var u := Wrap(x);
    if u >= TWO_63 then u - TWO_64 else u
  }

  /** The counter runs from start to end, upwards or downwards, and then from start again. */
  datatype Timer = Timer(start: nat, end: nat) {
    predicate Valid() { start < TWO_64 && end < TWO_64 }

    function Span(): nat { if start > end then start - end else end - start }

    function Period(): nat { Span() + 1 }

    /** The counter value that many ticks after it showed start. */
    function ValueAt(ticks: nat): int {
      if start > end then start - ticks % Period() else start + ticks % Period()
    }

    /** Cycle as the code computes it. */
    function Cycle(): (c: int)
      ensures -TWO_63 <= c < TWO_63
    {
      var c := Signed(end - start);
      Signed((if c < 0 then Signed(-c) else c) + 1)
    }

    /** Delta as the code computes it. */
    function Delta(previous: int, current: int): int {
      var d := Signed(current - previous);
      var e := if start > end then Signed(-d) else d;
      if e < 0 then Signed(e + Cycle()) else e
    }
  }

  lemma SignedSmall(x: int)
    requires -TWO_63 <= x < TWO_63
    ensures Signed(x) == x
  {
    if x < 0 {
      DivModUnique(x, TWO_64, -1, x + TWO_64);
    } else {
      DivModUnique(x, TWO_64, 0, x);
    }
  }

  /** Conversions do not matter for what is added to an unsigned total. */
  lemma SignedKeepsWrap(x: int)
    ensures Wrap(Signed(x)) == Wrap(x)
    ensures exists k: int :: Signed(x) == x + k * TWO_64
  {
    var q := x / TWO_64;
    assert x == TWO_64 * q + Wrap(x);
    var s := Signed(x);
    if s < 0 {
      DivModUnique(s, TWO_64, -1, Wrap(x));
      assert s == x + (-q - 1) * TWO_64;
    } else {
      DivModUnique(s, TWO_64, 0, Wrap(x));
      assert s == x + (-q) * TWO_64;
    }
  }

  /** Two counter values less than a period apart. */
  lemma Advance(period: nat, ticks: nat, d: nat)
    requires d < period
    ensures (ticks + d) % period == ticks % period + d || (ticks + d) % period == ticks % period + d - period
  {
    var p, q := ticks % period, ticks / period;
    assert ticks == period * q + p;
    if p + d < period {
      DivModUnique(ticks + d, period, q, p + d);
    } else {
      assert ticks + d == period * (q + 1) + (p + d - period);
      DivModUnique(ticks + d, period, q + 1, p + d - period);
    }
  }

  lemma CycleIsPeriod(timer: Timer)
    requires timer.Valid() && timer.Span() < TWO_63
    ensures timer.Cycle() == Signed(timer.Period())
  {
    hide Signed;
    SignedSmall(timer.end - timer.start);
    SignedSmall(timer.Span());
  }

  /** What is added to the total is the ticks that passed, for polls less than a period apart. */
  lemma DeltaIsTicks(timer: Timer, ticks: nat, d: nat)
    requires timer.Valid() && timer.Span() < TWO_63 && d < timer.Period()
    ensures timer.Delta(timer.ValueAt(ticks), timer.ValueAt(ticks + d)) == d
  {
    hide Signed, Timer.Cycle;
    CycleIsPeriod(timer);
    Advance(timer.Period(), ticks, d);
    var p, p' := ticks % timer.Period(), (ticks + d) % timer.Period();
    var d' := p' - p;
    SignedSmall(d');
    SignedSmall(-d');
    if d' < 0 {
      Backwards(d, timer.Period());
    }
  }

  lemma Backwards(d: nat, period: nat)
    requires d < period <= TWO_63
    ensures Signed(d - period + Signed(period)) == d
  {
    hide Signed;
    SignedSmall(d);
    if period < TWO_63 {
      SignedSmall(period);
    } else {
      SignedTop();
      SignedShift(d);
    }
  }

  lemma SignedTop()
    ensures Signed(TWO_63) == -TWO_63
  {
  }

  lemma SignedShift(d: nat)
    requires d < TWO_63
    ensures Signed(d - TWO_63 + -TWO_63) == d
  {
    DivModUnique(d - TWO_64, TWO_64, -1, d);
  }

  lemma CycleIsNotZero(timer: Timer)
    ensures timer.Cycle() != 0
  {
    hide Signed;
    var c := Signed(timer.end - timer.start);
    var a := if c < 0 then Signed(-c) else c;
    if a == TWO_63 - 1 {
      SignedTop();
    } else {
      SignedSmall(a + 1);
      if c < 0 && a == -1 {
        NegatedIsNotMinusOne(c);
      }
    }
  }

  lemma NegatedIsNotMinusOne(c: int)
    requires -TWO_63 <= c < 0
    ensures Signed(-c) != -1
  {
    if c == -TWO_63 {
      SignedTop();
    } else {
      SignedSmall(-c);
    }
  }

  /** A counter with a longer span is misread when polls lie 2^63 ticks apart. */
  lemma LongSpanMisread(timer: Timer)
    requires timer.Valid() && timer.Span() >= TWO_63
    ensures TWO_63 < timer.Period() && Wrap(timer.Delta(timer.ValueAt(0), timer.ValueAt(TWO_63))) != TWO_63
  {
    hide Signed, Timer.Cycle;
    DivModUnique(TWO_63, timer.Period(), 0, TWO_63);
    DivModUnique(0, timer.Period(), 0, 0);
    SignedTop();
    SignedSmall(-TWO_63);
    CycleIsNotZero(timer);
    var sum := -TWO_63 + timer.Cycle();
    SignedKeepsWrap(sum);
    if Wrap(sum) == TWO_63 {
      SameWrap(timer.Cycle());
    }
  }

  lemma SameWrap(c: int)
    requires -TWO_63 <= c < TWO_63 && Wrap(-TWO_63 + c) == TWO_63
    ensures c == 0
  {
    if c < 0 {
      DivModUnique(-TWO_63 + c, TWO_64, -1, TWO_63 + c);
    } else {
      DivModUnique(-TWO_63 + c, TWO_64, -1, TWO_63 + c);
    }
  }

  /** The ticks between two polls are counted. */
  predicate Tracks(timer: Timer, ticks: nat, d: nat) {
    Wrap(timer.Delta(timer.ValueAt(ticks), timer.ValueAt(ticks + d))) == d
  }

  /** Ticks are counted for all polls less than a period apart exactly if the span is below 2^63. */
  lemma DeltaIsTicksWhen(timer: Timer)
    requires timer.Valid()
    ensures timer.Span() < TWO_63 <==> forall ticks, d: nat :: d < timer.Period() ==> Tracks(timer, ticks, d)
  {
    hide Timer.Delta, Timer.ValueAt, Wrap;
    if timer.Span() < TWO_63 {
      forall ticks: nat, d: nat | d < timer.Period()
        ensures Tracks(timer, ticks, d)
      {
        DeltaIsTicks(timer, ticks, d);
        WrapSmall(d);
      }
    } else {
      LongSpanMisread(timer);
      assert !Tracks(timer, 0, TWO_63);
    }
  }

  lemma WrapSmall(d: nat)
    requires d < TWO_64
    ensures Wrap(d) == d
  {
    DivModUnique(d, TWO_64, 0, d);
  }

  /** A counter of all 64 bits is read right below 2^63 ticks, although its Cycle is wrong. */
  lemma FullWidthDelta(timer: Timer, ticks: nat, d: nat)
    requires timer.Valid() && timer.Span() == TWO_64 - 1 && d < TWO_63
    ensures timer.Delta(timer.ValueAt(ticks), timer.ValueAt(ticks + d)) == d
  {
    hide Signed, Timer.Cycle;
    Advance(TWO_64, ticks, d);
    SignedSmall(d);
    SignedSmall(0 - d);
    SignedTurn(d);
  }

  lemma SignedTurn(d: nat)
    requires d < TWO_63
    ensures Signed(d - TWO_64) == d && Signed(TWO_64 - d) == 0 - d
  {
    DivModUnique(d - TWO_64, TWO_64, -1, d);
    if d == 0 {
      DivModUnique(TWO_64, TWO_64, 1, 0);
    } else {
      DivModUnique(TWO_64 - d, TWO_64, 0, TWO_64 - d);
    }
  }

  /** The total after polls at these times. */
  function Accumulated(timer: Timer, times: seq<nat>): nat {
    if |times| <= 1 then 0
    else
      var n := |times| - 1;
      Wrap(Accumulated(timer, times[..n]) + timer.Delta(timer.ValueAt(times[n - 1]), timer.ValueAt(times[n])))
  }

  /** Over any number of polls and any number of turns of the counter, polls less than a period apart
      accumulate the time since the first one. */
  lemma {:induction false} AccumulatedIsElapsed(timer: Timer, times: seq<nat>)
    requires timer.Valid() && timer.Span() < TWO_63 && |times| > 0
    requires forall k :: 0 < k < |times| ==> times[k - 1] <= times[k] < times[k - 1] + timer.Period()
    ensures times[0] <= times[|times| - 1]
    ensures Accumulated(timer, times) == Wrap(times[|times| - 1] - times[0])
    decreases |times|
  {
    hide Timer.Delta, Timer.ValueAt, Timer.Period, Wrap;
    var n := |times| - 1;
    if n == 0 {
      WrapSmall(0);
    } else {
      AccumulatedIsElapsed(timer, times[..n]);
      assert times[..n][n - 1] == times[n - 1];
      var d := times[n] - times[n - 1];
      DeltaIsTicks(timer, times[n - 1], d);
      WrapOfSum(times[n - 1] - times[0], d);
    }
  }

  lemma WrapOfSum(a: nat, b: nat)
    ensures Wrap(Wrap(a) + b) == Wrap(a + b)
  {
    var q := a / TWO_64;
    var sum := Wrap(a) + b;
    var k := sum / TWO_64;
    assert a + b == TWO_64 * (q + k) + Wrap(sum);
    DivModUnique(a + b, TWO_64, q + k, Wrap(sum));
  }

  // ---- Transfers in chunks ----

  /** The transfers that carry a buffer. */
  function Chunks(buffer: seq<byte>): (r: seq<seq<byte>>) {
    if |buffer| == 0 then []
    else if |buffer| <= MAX_TRANSFER then [buffer]
    else [buffer[..MAX_TRANSFER]] + Chunks(buffer[MAX_TRANSFER..])
  }

  function Flatten(chunks: seq<seq<byte>>): seq<byte> {
    if chunks == [] then [] else chunks[0] + Flatten(chunks[1..])
  }

  /** The transfers carry the buffer in order, none is empty or longer than the device takes, and all but the
      last are as long as it takes. */
  lemma {:induction false} ChunksCarry(buffer: seq<byte>)
    ensures Flatten(Chunks(buffer)) == buffer
    ensures |Chunks(buffer)| == (|buffer| + 15) / 16
    ensures forall k :: 0 <= k < |Chunks(buffer)| ==> 0 < |Chunks(buffer)[k]| <= 16
    ensures forall k :: 0 <= k < |Chunks(buffer)| - 1 ==> |Chunks(buffer)[k]| == 16
    decreases |buffer|
  {
    if |buffer| > MAX_TRANSFER {
      ChunksCarry(buffer[MAX_TRANSFER..]);
      var rest := Chunks(buffer[MAX_TRANSFER..]);
      assert Chunks(buffer)[1..] == rest;
      forall k | 0 <= k < |Chunks(buffer)|
        ensures 0 < |Chunks(buffer)[k]| <= MAX_TRANSFER
        ensures k < |Chunks(buffer)| - 1 ==> |Chunks(buffer)[k]| == MAX_TRANSFER
      {
        if k > 0 {
          assert Chunks(buffer)[k] == rest[k - 1];
        }
      }
    } else if |buffer| > 0 {
      assert Chunks(buffer)[1..] == [];
    }
  }

  function Min(a: nat, b: nat): nat { if a < b then a else b }

  /** What is left of the buffer is carried by the transfers left. */
  lemma NextChunk(buffer: seq<byte>, at: nat)
    requires at < |buffer|
    ensures var n := Min(|buffer| - at, MAX_TRANSFER);
            Chunks(buffer[at..]) == [buffer[at..at + n]] + Chunks(buffer[at + n..])
  {
    var n := Min(|buffer| - at, MAX_TRANSFER);
    assert buffer[at..][n..] == buffer[at + n..] && buffer[at..][..n] == buffer[at..at + n];
    if n == |buffer| - at {
      assert buffer[at..] == buffer[at..at + n] && |buffer[at + n..]| == 0;
    }
  }

  /** The ticks of the longest wait, at so many ticks a second. */
  function LimitTicks(frequency: nat): (r: nat)
    ensures r < TWO_63
  {
    Wrap(frequency * TIMEOUT_A) / 1000000
  }

  /** They are the whole ticks of 750 milliseconds, unless the 64-bit product wraps. */
  lemma LimitIsTimeout(frequency: nat)
    requires frequency * 750_000 < 0x1_0000_0000_0000_0000
    ensures LimitTicks(frequency) * 4 <= frequency * 3 < (LimitTicks(frequency) + 1) * 4
  {
    WrapIs(frequency * TIMEOUT_A);
  }

  lemma WrapIs(x: nat)
    requires x < 0x1_0000_0000_0000_0000
    ensures Wrap(x) == x
  {
  }

  /** A transfer on the bus: a write, whether it failed or not, or a read that succeeded. */
  datatype Transfer = Write(bytes: seq<byte>) | Read(bytes: seq<byte>)

  function Sent(buffer: seq<byte>): (ts: seq<Transfer>)
    ensures |ts| == |Chunks(buffer)| && forall k :: 0 <= k < |ts| ==> ts[k] == Write(Chunks(buffer)[k])
  {
    seq(|Chunks(buffer)|, k requires 0 <= k < |Chunks(buffer)| => Write(Chunks(buffer)[k]))
  }

  function Received(buffer: seq<byte>): (ts: seq<Transfer>)
    ensures |ts| == |Chunks(buffer)| && forall k :: 0 <= k < |ts| ==> ts[k] == Read(Chunks(buffer)[k])
  {
    seq(|Chunks(buffer)|, k requires 0 <= k < |Chunks(buffer)| => Read(Chunks(buffer)[k]))
  }

  /** Only writes, the last of which carry the buffer. */
  ghost predicate EndsSent(ts: seq<Transfer>, buffer: seq<byte>) {
    AllWrites(ts) && EndsWith(ts, Sent(buffer))
  }

  /** Only reads, the last of which carry the buffer. */
  ghost predicate EndsReceived(ts: seq<Transfer>, buffer: seq<byte>) {
    AllReads(ts) && EndsWith(ts, Received(buffer))
  }

  ghost predicate AllWrites(ts: seq<Transfer>) { forall k :: 0 <= k < |ts| ==> ts[k].Write? }

  ghost predicate AllReads(ts: seq<Transfer>) { forall k :: 0 <= k < |ts| ==> ts[k].Read? }

  ghost predicate EndsWith(ts: seq<Transfer>, last: seq<Transfer>) {
    |last| <= |ts| && ts[|ts| - |last|..] == last
  }

  lemma EndsNew(before: seq<Transfer>, now: seq<Transfer>, more: seq<Transfer>)
    requires before <= now
    ensures before <= now + more && EndsWith((now + more)[|before|..], more)
    ensures (now + more)[|before|..] == now[|before|..] + more
  {
  }

  /** From number |before| on: the command, then, from j up to k, the header. */
  ghost predicate Carried(before: seq<Transfer>, after: seq<Transfer>, j: nat, k: nat, command: seq<byte>, header: seq<byte>) {
    && |before| <= j <= k <= |after|
    && EndsSent(after[|before|..j], command) && EndsReceived(after[j..k], header)
  }

  lemma CarriedLonger(
    before: seq<Transfer>, seen: seq<Transfer>, after: seq<Transfer>, j: nat, k: nat, command: seq<byte>, header: seq<byte>)
    requires Carried(before, seen, j, k, command, header) && seen <= after
    ensures Carried(before, after, j, k, command, header)
  {
    assert after[|before|..j] == seen[|before|..j] && after[j..k] == seen[j..k];
  }

  // ---- The driver ----

  datatype Attempt = Done | Failed

  class Tpm {
    const timer: Timer
    /** Ticks per second. */
    const frequency: nat
    /** True time, in ticks since the counter showed start. */
    var now: nat
    /** The times at which the counter was read. */
    ghost var polls: seq<nat>
    ghost var transfers: seq<Transfer>

    /** The counter moves, and its arithmetic works. */
    predicate Valid() { timer.Valid() && timer.Period() > 1 && (timer.Span() < TWO_63 || timer.Span() == TWO_64 - 1) }

    /** Polls closer than this are told apart. */
    function Gap(): nat { if timer.Span() < TWO_63 then timer.Period() else TWO_63 }

    constructor (timer: Timer, frequency: nat, now: nat)
      requires timer.Valid() && timer.Period() > 1 && (timer.Span() < TWO_63 || timer.Span() == TWO_64 - 1)
      ensures Valid() && this.timer == timer && this.frequency == frequency && this.now == now
      ensures polls == [] && transfers == []
    {
      this.timer, this.frequency, this.now := timer, frequency, now;
      polls, transfers := [], [];
    }

    method GetPerformanceCounter() returns (value: int)
      modifies this`polls
      ensures value == timer.ValueAt(now) && polls == old(polls) + [now]
    {
      polls := polls + [now];
      value := timer.ValueAt(now);
    }

    /** An attempt takes some time, less than the counter needs to come round, or than half of that for a
        counter of all 64 bits. */
    method TakeTime()
      requires Valid()
      modifies this`now
      ensures old(now) < now < old(now) + Gap()
    {
      var ticks: nat :| 0 < ticks < Gap();
      now := now + ticks;
    }

    /** A read transfer: the device may fail, or answer with anything. */
    method I2cRead(n: nat) returns (ok: bool, data: seq<byte>)
      ensures |data| == n
    {
      var bytes := new byte[n];
      ok, data := *, bytes[..];
    }

    /** WriteTpmBufferMultiple: transfers chunk after chunk until one fails. */
    method WriteTpmBufferMultiple(buffer: seq<byte>) returns (attempt: Attempt)
      requires Valid() && |buffer| > 0
      modifies this`now, this`transfers
      ensures old(now) < now < old(now) + Gap()
      ensures attempt.Done? ==> transfers == old(transfers) + Sent(buffer)
      ensures attempt.Failed? ==>
                exists n: nat :: 0 < n <= |Sent(buffer)| && transfers == old(transfers) + Sent(buffer)[..n]
    {
      hide Chunks, Sent;
      TakeTime();
      var at := 0;
      ghost var sent: nat := 0;
      assert buffer[0..] == buffer;
      while at < |buffer|
        invariant at <= |buffer| && sent <= |Chunks(buffer)| && (at > 0 ==> sent > 0)
        invariant Chunks(buffer)[sent..] == Chunks(buffer[at..])
        invariant transfers == old(transfers) + Sent(buffer)[..sent]
        invariant old(now) < now < old(now) + Gap()
      {
        var n := Min(|buffer| - at, MAX_TRANSFER);
        var ok: bool := *;
        NextChunk(buffer, at);
        assert Chunks(buffer)[sent] == Chunks(buffer)[sent..][0] == buffer[at..at + n];
        assert Chunks(buffer)[sent + 1..] == Chunks(buffer)[sent..][1..];
        assert Sent(buffer)[..sent + 1] == Sent(buffer)[..sent] + [Write(buffer[at..at + n])];
        transfers := transfers + [Write(buffer[at..at + n])];
        sent := sent + 1;
        if !ok {
          return Failed;
        }
        at := at + n;
      }
      NoChunks(buffer[at..]);
      assert Sent(buffer)[..sent] == Sent(buffer);
      return Done;
    }

    /** ReadTpmBufferMultiple: n bytes into the buffer from position start on. */
    method ReadTpmBufferMultiple(buffer: array<byte>, start: nat, n: nat) returns (attempt: Attempt)
      requires Valid() && n > 0 && start + n <= buffer.Length
      modifies this`now, this`transfers, buffer
      ensures old(now) < now < old(now) + Gap()
      ensures buffer[..start] == old(buffer[..start]) && buffer[start + n..] == old(buffer[start + n..])
      ensures exists got :: AllReads(got) && transfers == old(transfers) + got
      ensures attempt.Done? ==> transfers == old(transfers) + Received(buffer[start..start + n])
    {
      hide Chunks, Received, Patch;
      TakeTime();
      var at := 0;
      assert buffer[start..start] == [];
      NoChunks([]);
      ghost var m, m0 := buffer[..], buffer[..];
      while at < n
        invariant at <= n && (at < n ==> at % MAX_TRANSFER == 0)
        invariant m == buffer[..] && m[..start] == m0[..start] && m[start + n..] == m0[start + n..]
        invariant transfers == old(transfers) + Received(m[start..start + at])
        invariant old(now) < now < old(now) + Gap()
      {
        var part := Min(n - at, MAX_TRANSFER);
        var ok, data := I2cRead(part);
        if !ok {
          return Failed;
        }
        Put(buffer, start + at, data);
        PatchFrame(m, start, at, data, n);
        MoreReceived(m[start..start + at], data);
        m := Patch(m, start + at, data);
        transfers := transfers + [Read(data)];
        at := at + part;
      }
      assert m[start..start + n] == buffer[start..start + n];
      return Done;
    }

    /** The counter was read just now as previous, and total is the time since t0. */
    ghost predicate Clocked(previous: int, total: nat, t0: nat)
      reads this
    {
      && Valid() && |polls| > 0 && polls[|polls| - 1] == now
      && previous == timer.ValueAt(now) && t0 <= now && total == now - t0
    }

    /** The polls from index first up to the last one came before the limit. */
    ghost predicate EarlyBeforeLast(first: nat, t0: nat)
      reads this
    {
      forall k :: first <= k < |polls| - 1 ==> polls[k] < t0 + LimitTicks(frequency)
    }

    /** Reads the counter after an attempt and adds the ticks that passed. */
    method Poll(previous: int, total: nat, ghost t0: nat) returns (current: int, total': nat)
      requires Valid() && |polls| > 0 && total < TWO_63
      requires var last := polls[|polls| - 1];
               last < now < last + Gap() && previous == timer.ValueAt(last) && t0 <= last && total == last - t0
      modifies this`polls
      ensures polls == old(polls) + [now] && Clocked(current, total', t0)
    {
      hide Timer.Delta, Timer.ValueAt, Wrap;
      ghost var last := polls[|polls| - 1];
      current := GetPerformanceCounter();
      if timer.Span() < TWO_63 {
        DeltaIsTicks(timer, last, now - last);
      } else {
        FullWidthDelta(timer, last, now - last);
      }
      WrapSmall(now - t0);
      total' := Wrap(total + timer.Delta(previous, current));
    }

    /** Sends the command until it is through or the time is up. */
    method SendPhase(command: seq<byte>, previous: int, total: nat, ghost t0: nat)
      returns (status: Status, current: int, total': nat)
      requires |command| > 0 && Clocked(previous, total, t0) && total < TWO_63
      modifies this`now, this`polls, this`transfers
      ensures (status == Success || status == Timeout) && Clocked(current, total', t0)
      ensures old(polls) < polls && EarlyBeforeLast(|old(polls)|, t0)
      ensures status == Timeout <==> total' >= LimitTicks(frequency)
      ensures old(transfers) <= transfers && AllWrites(transfers[|old(transfers)|..])
      ensures status == Success ==> EndsSent(transfers[|old(transfers)|..], command)
    {
      hide Timer.ValueAt, Chunks, Sent, LimitTicks, Tpm.Gap, EndsWith;
      current, total' := previous, total;
      while true
        invariant Clocked(current, total', t0) && total' < TWO_63
        invariant old(polls) <= polls && (|polls| > |old(polls)| ==> total' < LimitTicks(frequency))
        invariant EarlyBeforeLast(|old(polls)|, t0)
        invariant old(transfers) <= transfers && AllWrites(transfers[|old(transfers)|..])
        decreases TWO_63 - total'
      {
        ghost var before := transfers;
        var attempt := WriteTpmBufferMultiple(command);
        ghost var more := transfers[|before|..];
        assert transfers == before + more && (attempt.Done? ==> more == Sent(command)) && AllWrites(more);
        EndsNew(old(transfers), before, more);
        current, total' := Poll(current, total', t0);
        if total' >= LimitTicks(frequency) {
          return Timeout, current, total';
        }
        if attempt.Done? {
          return Success, current, total';
        }
      }
    }

    /** Reads n bytes until they are there or the time is up. */
    method ReadPhase(buffer: array<byte>, start: nat, n: nat, previous: int, total: nat, ghost t0: nat)
      returns (status: Status, current: int, total': nat)
      requires n > 0 && start + n <= buffer.Length && Clocked(previous, total, t0) && total < TWO_63
      modifies this`now, this`polls, this`transfers, buffer
      ensures (status == Success || status == Timeout) && Clocked(current, total', t0)
      ensures old(polls) < polls && EarlyBeforeLast(|old(polls)|, t0)
      ensures status == Timeout <==> total' >= LimitTicks(frequency)
      ensures buffer[..start] == old(buffer[..start]) && buffer[start + n..] == old(buffer[start + n..])
      ensures old(transfers) <= transfers && AllReads(transfers[|old(transfers)|..])
      ensures status == Success ==> EndsReceived(transfers[|old(transfers)|..], buffer[start..start + n])
    {
      hide Timer.ValueAt, Chunks, Received, LimitTicks, Tpm.Gap, EndsWith;
      current, total' := previous, total;
      while true
        invariant Clocked(current, total', t0) && total' < TWO_63
        invariant old(polls) <= polls && (|polls| > |old(polls)| ==> total' < LimitTicks(frequency))
        invariant EarlyBeforeLast(|old(polls)|, t0)
        invariant old(transfers) <= transfers && AllReads(transfers[|old(transfers)|..])
        invariant buffer[..start] == old(buffer[..start]) && buffer[start + n..] == old(buffer[start + n..])
        decreases TWO_63 - total'
      {
        ghost var before := transfers;
        var attempt := ReadTpmBufferMultiple(buffer, start, n);
        ghost var more := transfers[|before|..];
        assert transfers == before + more && AllReads(more);
        EndsNew(old(transfers), before, more);
        current, total' := Poll(current, total', t0);
        if total' >= LimitTicks(frequency) {
          return Timeout, current, total';
        }
        if attempt.Done? {
          return Success, current, total';
        }
      }
    }

    /** Tpm12RequestUseTpm; presence is the answer to the physical presence command sent afterwards. */
    method RequestUseTpm(presence: Status) returns (status: Status)
      requires Valid()
      modifies this`now, this`polls, this`transfers
      ensures |polls| > |old(polls)| + 1 && polls[|old(polls)|] == old(now) && polls[|polls| - 1] == now
      ensures EarlyBeforeLast(|old(polls)| + 1, old(now))
      ensures now >= old(now) + LimitTicks(frequency) ==> status == Timeout
      ensures old(transfers) <= transfers && AllReads(transfers[|old(transfers)|..])
      ensures now < old(now) + LimitTicks(frequency) ==> status == presence && |transfers| > |old(transfers)|
    {
      hide Timer.ValueAt, Chunks, LimitTicks, Tpm.Gap;
      var current := GetPerformanceCounter();
      var total := 0;
      var data := new byte[1];
      status, current, total := ReadPhase(data, 0, 1, current, total, old(now));
      OneChunk(data[0..1]);
      if status == Success {
        status := presence;
      }
    }

    /** Tpm12SubmitCommand. The counter is read first of all and after each attempt; the call times out at
        exactly the first of these later polls that comes the limit or more after the first one, even if the
        attempt before it succeeded. Otherwise the command went out whole, and the buffer holds the answer. */
    method SubmitCommand(command: seq<byte>, buffer: array<byte>, size: nat) returns (status: Status, outSize: nat)
      requires Valid() && |command| > 0 && size <= buffer.Length
      modifies this`now, this`polls, this`transfers, buffer
      ensures size < HEADER ==>
                && status == BufferTooSmall && outSize == size && buffer[..] == old(buffer[..])
                && now == old(now) && polls == old(polls) && transfers == old(transfers)
      ensures size >= HEADER ==>
                && |polls| > |old(polls)| + 1 && polls[|old(polls)|] == old(now) && polls[|polls| - 1] == now
                && EarlyBeforeLast(|old(polls)| + 1, old(now))
                && (status == Timeout <==> now >= old(now) + LimitTicks(frequency))
                && old(transfers) <= transfers
      ensures size >= HEADER && status != Timeout ==>
                && (exists j: nat, k: nat :: Carried(old(transfers), transfers, j, k, command, buffer[..HEADER])
                      && match Judge(buffer[..HEADER], size)
                         case Stop(_) => k == |transfers|
                         case ReadOn(total) => EndsReceived(transfers[k..], buffer[HEADER..total]))
                && match Judge(buffer[..HEADER], size)
                   case Stop(verdict) => status == verdict && outSize == size
                   case ReadOn(total) => status == Success && outSize == total
    {
      hide Timer.ValueAt, Chunks, Sent, Received, LimitTicks, Tpm.Gap, Judge, EndsWith, AllReads, AllWrites;
      outSize := size;
      if size < HEADER {
        return BufferTooSmall, outSize;
      }
      var current := GetPerformanceCounter();
      var total := 0;
      status, current, total := SendPhase(command, current, total, old(now));
      if status == Success {
        ghost var sent := transfers;
        ghost var j := |sent|;
        assert sent[|old(transfers)|..j] == sent[|old(transfers)|..];
        status, current, total := ReadPhase(buffer, 0, HEADER, current, total, old(now));
        if status == Success {
          JudgedSize(buffer[..HEADER], size);
          ghost var header, k := buffer[..HEADER], |transfers|;
          ghost var seen := transfers;
          assert seen[|old(transfers)|..j] == sent[|old(transfers)|..j] && seen[j..k] == seen[j..];
          assert Carried(old(transfers), seen, j, k, command, header);
          match Judge(buffer[..HEADER], size) {
            case Stop(verdict) =>
              status := verdict;
            case ReadOn(n) =>
              outSize := n;
              status, current, total := ReadPhase(buffer, HEADER, n - HEADER, current, total, old(now));
              assert buffer[..HEADER] == header;
              CarriedLonger(old(transfers), seen, transfers, j, k, command, header);
          }
        }
      }
    }
  }

  lemma OneChunk(data: seq<byte>)
    requires |data| == 1
    ensures Chunks(data) == [data]
  {
  }

  lemma NoChunks(buffer: seq<byte>)
    requires |buffer| == 0
    ensures Chunks(buffer) == []
  {
  }

  /** A chunk put behind whole chunks is one more transfer. */
  lemma {:induction false} MoreChunks(done: seq<byte>, data: seq<byte>)
    requires |done| % MAX_TRANSFER == 0 && 0 < |data| <= MAX_TRANSFER
    ensures Chunks(done + data) == Chunks(done) + [data]
    decreases |done|
  {
    if |done| == 0 {
      assert done + data == data;
    } else {
      var rest := done[MAX_TRANSFER..];
      assert |done| >= MAX_TRANSFER;
      MoreChunks(rest, data);
      assert (done + data)[MAX_TRANSFER..] == rest + data;
      assert (done + data)[..MAX_TRANSFER] == done[..MAX_TRANSFER];
      if |done| == MAX_TRANSFER {
        assert rest == [] && done[..MAX_TRANSFER] == done;
      }
    }
  }

  lemma MoreReceived(done: seq<byte>, data: seq<byte>)
    requires |done| % MAX_TRANSFER == 0 && 0 < |data| <= MAX_TRANSFER
    ensures Received(done + data) == Received(done) + [Read(data)]
  {
    hide Chunks;
    MoreChunks(done, data);
  }

  lemma PatchFrame(m: seq<byte>, start: nat, at: nat, data: seq<byte>, n: nat)
    requires at + |data| <= n && start + n <= |m|
    ensures var m' := Patch(m, start + at, data);
            && m'[..start] == m[..start] && m'[start + n..] == m[start + n..]
            && m'[start..start + at + |data|] == m[start..start + at] + data
  {
  }
}

/** The response header of a TPM 1.2 command: tag, size of the whole response and return code, big-endian. */
module TpmResponse {
  import opened Bytes

  const HEADER: nat := 10
  const RSP_TAG: nat := 0x00C4

  datatype Status = Success | NotFound | Timeout | DeviceError | BufferTooSmall

  predicate GoodTag(header: seq<byte>)
    requires |header| >= HEADER
  {
    header[0] as nat * 0x100 + header[1] as nat == RSP_TAG
  }

  function ParamSize(header: seq<byte>): nat
    requires |header| >= HEADER
  {
    header[2] as nat * 0x100_0000 + header[3] as nat * 0x1_0000 + header[4] as nat * 0x100 + header[5] as nat
  }

  datatype Verdict = Stop(status: Status) | ReadOn(total: nat)

  /** What the header decides, for a caller's buffer of the given size. */
  function Judge(header: seq<byte>, size: nat): Verdict
    requires |header| >= HEADER
  {
    if !GoodTag(header) then Stop(DeviceError)
    else if ParamSize(header) == HEADER then Stop(Success)
    else if ParamSize(header) < HEADER then Stop(DeviceError)
    else if size < ParamSize(header) then Stop(BufferTooSmall)
    else ReadOn(ParamSize(header))
  }

  /** The decision by the bytes of the header: the tag must be 0x00C4, and the size, most significant byte first,
      decides against 10 and the buffer. */
  lemma JudgeMeans(header: seq<byte>, size: nat)
    requires |header| >= 10
    ensures var good := header[0] == 0x00 && header[1] == 0xC4;
            var n := ((header[2] as nat * 256 + header[3] as nat) * 256 + header[4] as nat) * 256 + header[5] as nat;
            && (Judge(header, size) == Stop(DeviceError) <==> !good || n < 10)
            && (Judge(header, size) == Stop(Success) <==> good && n == 10)
            && (Judge(header, size) == Stop(BufferTooSmall) <==> good && n > 10 && n > size)
            && (forall total :: Judge(header, size) == ReadOn(total) <==> good && 10 < total == n <= size)
            && ParamSize(header) == n && (GoodTag(header) <==> good)
  {
  }

  lemma JudgedSize(header: seq<byte>, size: nat)
    requires |header| >= HEADER
    ensures Judge(header, size).ReadOn? ==> HEADER < Judge(header, size).total <= size
    ensures Judge(header, size).Stop? ==> Judge(header, size).status != Timeout
  {
  }
}

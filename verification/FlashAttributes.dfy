/**
 The attribute state of a firmware volume: capability bits that never change, and status bits that
 SetAttributes replaces within them until the lock bit is set. The bit values are those of the Firmware
 Volume Block2 protocol, section 3.4.2 of the UEFI PI Specification Volume 3.
 */
module FlashAttributes {

  const READ_DISABLED_CAP: bv32 := 0x0000_0001
  const READ_ENABLED_CAP: bv32 := 0x0000_0002
  const READ_STATUS: bv32 := 0x0000_0004
  const WRITE_DISABLED_CAP: bv32 := 0x0000_0008
  const WRITE_ENABLED_CAP: bv32 := 0x0000_0010
  const WRITE_STATUS: bv32 := 0x0000_0020
  const LOCK_CAP: bv32 := 0x0000_0040
  const LOCK_STATUS: bv32 := 0x0000_0080

  const CAPABILITIES: bv32 := READ_DISABLED_CAP | READ_ENABLED_CAP | WRITE_DISABLED_CAP | WRITE_ENABLED_CAP | LOCK_CAP
  const STATUS: bv32 := READ_STATUS | WRITE_STATUS | LOCK_STATUS

  datatype Status = Success | InvalidParameter | AccessDenied | BadBufferSize | DeviceError

  predicate Has(attributes: bv32, bit: bv32) { attributes & bit != 0 }

  function CapabilitiesOf(attributes: bv32): bv32 { attributes & CAPABILITIES }

  function StatusOf(attributes: bv32): bv32 { attributes & STATUS }

  /** The bits that are no status bits. */
  function FixedOf(attributes: bv32): bv32 { attributes & !STATUS }

  /** The test that old and new status differ in some bit. */
  predicate Differ(a: bv32, b: bv32) { Xor(a, b) != 0 }

  function Xor(a: bv32, b: bv32): bv32 { a ^ b }

  predicate IsLocked(attributes: bv32) { Has(attributes, LOCK_STATUS) }

  /** The capabilities allow this polarity of a status bit. */
  predicate Allows(attributes: bv32, enabledCap: bv32, disabledCap: bv32, enabled: bool) {
    Has(attributes, if enabled then enabledCap else disabledCap)
  }

  /** Every status bit asked for is one the capabilities allow. The lock bit may always stay clear. */
  predicate Supported(attributes: bv32, requested: bv32) {
    && Allows(attributes, READ_ENABLED_CAP, READ_DISABLED_CAP, Has(requested, READ_STATUS))
    && Allows(attributes, WRITE_ENABLED_CAP, WRITE_DISABLED_CAP, Has(requested, WRITE_STATUS))
    && (Has(requested, LOCK_STATUS) ==> Has(attributes, LOCK_CAP))
  }

  /** What one call may do to the attributes: nothing outside the status bits, and nothing at all once
      the lock is set. */
  predicate AttributeStep(old_: bv32, new_: bv32) {
    FixedOf(old_) == FixedOf(new_) && (IsLocked(old_) ==> new_ == old_)
  }

  /** The checks of FvbSetVolumeAttributes in the order of the code, and the new attributes. */
  method SetAttributes(attributes: bv32, requested: bv32) returns (status: Status, new_: bv32)
    ensures status == Success <==>
              Supported(attributes, requested)
              && (IsLocked(attributes) ==> StatusOf(attributes) == StatusOf(requested))
    ensures status == AccessDenied <==> IsLocked(attributes) && StatusOf(attributes) != StatusOf(requested)
    ensures status == Success || status == AccessDenied || status == InvalidParameter
    ensures status != Success ==> new_ == attributes
    ensures status == Success ==> StatusOf(new_) == StatusOf(requested) && FixedOf(new_) == FixedOf(attributes)
  {
    var capabilities := CapabilitiesOf(attributes);
    var oldStatus, newStatus := StatusOf(attributes), StatusOf(requested);
    CapabilityBits(attributes);
    StatusBits(requested);
    DifferentStatus(oldStatus, newStatus);
    ReplaceStatus(attributes, requested);
    hide Has, CapabilitiesOf, StatusOf, FixedOf, Differ, Replaced;
    new_ := attributes;
    if Has(attributes, LOCK_STATUS) {
      if Differ(oldStatus, newStatus) {
        return AccessDenied, new_;
      }
    }
    if !Has(capabilities, READ_DISABLED_CAP) {
      if !Has(newStatus, READ_STATUS) {
        return InvalidParameter, new_;
      }
    }
    if !Has(capabilities, READ_ENABLED_CAP) {
      if Has(newStatus, READ_STATUS) {
        return InvalidParameter, new_;
      }
    }
    if !Has(capabilities, WRITE_DISABLED_CAP) {
      if !Has(newStatus, WRITE_STATUS) {
        return InvalidParameter, new_;
      }
    }
    if !Has(capabilities, WRITE_ENABLED_CAP) {
      if Has(newStatus, WRITE_STATUS) {
        return InvalidParameter, new_;
      }
    }
    if !Has(capabilities, LOCK_CAP) {
      if Has(newStatus, LOCK_STATUS) {
        return InvalidParameter, new_;
      }
    }
    return Success, Replaced(attributes, requested);
  }

  function Replaced(attributes: bv32, requested: bv32): bv32 { ReplacedBits(attributes, requested) }

  /** The two stores that give the new attributes. */
  function ReplacedBits(attributes: bv32, requested: bv32): (r: bv32)
    ensures r & STATUS == requested & STATUS
    ensures r & !STATUS == attributes & !STATUS
  {
    (attributes & (0xFFFF_FFFF & !STATUS)) | (requested & STATUS)
  }

  /** The capabilities asked for, by the bits of the protocol: 0x04 and 0x20 need the capability of their polarity,
      0x80 needs 0x40 only when it is set. */
  lemma SupportedMeans(a: bv32, r: bv32)
    ensures Supported(a, r)
       <==> && (if r & 0x04 != 0 then a & 0x02 != 0 else a & 0x01 != 0)
            && (if r & 0x20 != 0 then a & 0x10 != 0 else a & 0x08 != 0)
            && (r & 0x80 != 0 ==> a & 0x40 != 0)
  {
  }

  lemma MaskValues()
    ensures STATUS == 0xA4 && !STATUS == 0xFFFF_FF5B
  {
  }

  /** The three status bits, and all others. */
  lemma StatusMeans(a: bv32)
    ensures StatusOf(a) == a & 0xA4 && FixedOf(a) == a & 0xFFFF_FF5B
  {
    MaskValues();
    hide STATUS;
  }

  lemma StatusBitsMean(a: bv32)
    ensures Has(a, LOCK_STATUS) <==> a & 0x80 != 0
    ensures Has(a, READ_STATUS) <==> a & 0x04 != 0
    ensures Has(a, WRITE_STATUS) <==> a & 0x20 != 0
  {
  }

  lemma CapabilityBits(a: bv32)
    ensures Has(CapabilitiesOf(a), READ_DISABLED_CAP) == Has(a, READ_DISABLED_CAP)
    ensures Has(CapabilitiesOf(a), READ_ENABLED_CAP) == Has(a, READ_ENABLED_CAP)
    ensures Has(CapabilitiesOf(a), WRITE_DISABLED_CAP) == Has(a, WRITE_DISABLED_CAP)
    ensures Has(CapabilitiesOf(a), WRITE_ENABLED_CAP) == Has(a, WRITE_ENABLED_CAP)
    ensures Has(CapabilitiesOf(a), LOCK_CAP) == Has(a, LOCK_CAP)
  {
  }

  lemma StatusBits(a: bv32)
    ensures Has(StatusOf(a), READ_STATUS) == Has(a, READ_STATUS)
    ensures Has(StatusOf(a), WRITE_STATUS) == Has(a, WRITE_STATUS)
    ensures Has(StatusOf(a), LOCK_STATUS) == Has(a, LOCK_STATUS)
  {
  }

  lemma DifferentStatus(a: bv32, b: bv32)
    ensures Differ(a, b) <==> a != b
  {
    Cancel(a, b);
    hide Xor;
    if Xor(a, b) == 0 {
      assert a == Xor(Xor(a, b), b) == Xor(0, b) == b;
    }
  }

  lemma Cancel(a: bv32, b: bv32)
    ensures Xor(Xor(a, b), b) == a
    ensures Xor(0, b) == b
    ensures Xor(b, b) == 0
  {
  }

  lemma ReplaceStatus(attributes: bv32, requested: bv32)
    ensures StatusOf(Replaced(attributes, requested)) == StatusOf(requested)
    ensures FixedOf(Replaced(attributes, requested)) == FixedOf(attributes)
  {
    hide ReplacedBits;
  }

  /** A successful call is a permitted step. */
  lemma SuccessIsStep(attributes: bv32, requested: bv32, new_: bv32)
    requires IsLocked(attributes) ==> StatusOf(attributes) == StatusOf(requested)
    requires StatusOf(new_) == StatusOf(requested) && FixedOf(new_) == FixedOf(attributes)
    ensures AttributeStep(attributes, new_)
  {
    SplitStatus(attributes);
    SplitStatus(new_);
  }

  lemma SplitStatus(a: bv32)
    ensures StatusOf(a) | FixedOf(a) == a
  {
  }

  lemma StepKeepsCapabilities(old_: bv32, new_: bv32)
    requires AttributeStep(old_, new_)
    ensures CapabilitiesOf(old_) == CapabilitiesOf(new_)
  {
  }
}

/**
  The per-minute history record shared by the firmware (include/comune.h):
  a packed 12-byte structure with sentinel values meaning "no reading".
 */
module Sample {
  import opened Base

  const ProgramsCount := 4        // program banks
  const SlotsPerDay := 48         // half-hour slots per program
  const SamplesPerDay := 1440     // one sample per minute
  const SampleSize := 12          // bytes per packed record

  const TempNone: i16 := -32768   // temperature / setpoint sentinel
  const HumNone: u8 := 255        // humidity sentinel
  const PressNone: u16 := 0       // pressure sentinel

  const FlagRelayOn: u8 := 0x01
  const FlagManualMode: u8 := 0x02
  const FlagException: u8 := 0x04

  /** A minute of the day, and so an index into the day buffer. */
  type Minute = m: int | 0 <= m < 1440

  /**
    One record. Temperature and setpoint are hundredths of a degree Celsius,
    pressure tenths of hPa, humidity percent.
   */
  datatype Sample = Sample(
    minuteOfDay: u16,
    temperature: i16,
    humidity: u8,
    flags: u8,
    setpoint: i16,
    activeBank: u8,
    reserved: u8,
    pressure: u16)

  /** A slot holds data exactly when its temperature is not the sentinel. */
  predicate IsValid(s: Sample) { s.temperature != TempNone }

  /** `flags & mask` is non-zero. */
  predicate HasFlag(flags: u8, mask: u8) { BitAnd(flags, mask) != 0 }

  /** The record a cleared slot holds: its own minute and every sentinel. */
  function Empty(i: Minute): (s: Sample)
    ensures !IsValid(s) && s.minuteOfDay == i
  {
    Sample(i, TempNone, HumNone, 0, TempNone, 0, 0, PressNone)
  }

  /** `x & 1` is the lowest bit. */
  lemma BitAndOne(x: nat)
    ensures BitAnd(x, 1) == x % 2
  {
  }

  /** The masked value of each flag is its bit in place. */
  lemma {:induction false} FlagValues(f: u8)
    ensures BitAnd(f, 1) == f % 2
    ensures BitAnd(f, 2) == 2 * ((f / 2) % 2)
    ensures BitAnd(f, 4) == 4 * ((f / 4) % 2)
    ensures BitAnd(f, 7) == f % 2 + 2 * ((f / 2) % 2) + 4 * ((f / 4) % 2)
  {
    BitAndOne(f);
    BitAndOne(f / 2);
    BitAndOne(f / 4);
    assert BitAnd(f / 2, 1) == (f / 2) % 2;
    assert BitAnd(f, 2) == 2 * BitAnd(f / 2, 1);
    assert BitAnd(f / 2, 2) == 2 * BitAnd(f / 4, 1) by {
      assert (f / 2) / 2 == f / 4;
    }
    assert BitAnd(f, 4) == 2 * BitAnd(f / 2, 2);
    assert BitAnd(f / 2, 3) == 2 * BitAnd(f / 4, 1) + (f / 2) % 2 by {
      assert (f / 2) / 2 == f / 4;
    }
    assert BitAnd(f, 7) == 2 * BitAnd(f / 2, 3) + f % 2;
  }

  lemma FlagBits(f: u8)
    ensures HasFlag(f, FlagRelayOn) <==> f % 2 == 1
    ensures HasFlag(f, FlagManualMode) <==> (f / 2) % 2 == 1
    ensures HasFlag(f, FlagException) <==> (f / 4) % 2 == 1
  {
    FlagValues(f);
  }

  /** The three flag masks are distinct single bits; bits 3..7 belong to none of them. */
  lemma FlagMasksDisjoint()
    ensures BitAnd(FlagRelayOn, FlagManualMode) == 0
    ensures BitAnd(FlagRelayOn, FlagException) == 0
    ensures BitAnd(FlagManualMode, FlagException) == 0
    ensures forall f: u8 :: HasFlag(f, FlagRelayOn) || HasFlag(f, FlagManualMode) || HasFlag(f, FlagException)
                       <==> BitAnd(f, 0x07) != 0
  {
    forall f: u8
      ensures HasFlag(f, FlagRelayOn) || HasFlag(f, FlagManualMode) || HasFlag(f, FlagException)
              <==> BitAnd(f, 0x07) != 0
    {
      FlagValues(f);
    }
  }

  /** Packs a record little-endian, field by field, in declaration order. */
  function Encode(s: Sample): (r: bytes)
    ensures |r| == SampleSize
  {
    U16Bytes(s.minuteOfDay) + U16Bytes(AsU16(s.temperature)) + [s.humidity, s.flags]
    + U16Bytes(AsU16(s.setpoint)) + [s.activeBank, s.reserved] + U16Bytes(s.pressure)
  }

  /** Unpacks 12 bytes; every byte pattern is accepted, there is no checksum. */
  function Decode(b: bytes): (s: Sample)
    requires |b| == SampleSize
    ensures s.minuteOfDay % 0x100 == b[0] && s.minuteOfDay / 0x100 == b[1]
    ensures AsU16(s.temperature) == U16Of(b[2], b[3])
    ensures s.humidity == b[4] && s.flags == b[5]
    ensures AsU16(s.setpoint) == U16Of(b[6], b[7])
    ensures s.activeBank == b[8] && s.reserved == b[9]
    ensures s.pressure % 0x100 == b[10] && s.pressure / 0x100 == b[11]
  {
    Sample(U16Of(b[0], b[1]), AsI16(U16Of(b[2], b[3])), b[4], b[5],
           AsI16(U16Of(b[6], b[7])), b[8], b[9], U16Of(b[10], b[11]))
  }

  /** Every record, sentinels included, survives packing and unpacking. */
  lemma DecodeEncode(s: Sample)
    ensures Decode(Encode(s)) == s
  {
    var b := Encode(s);
    assert U16Of(b[2], b[3]) == AsU16(s.temperature);
    assert U16Of(b[6], b[7]) == AsU16(s.setpoint);
  }

  /** Every 12-byte pattern is the packing of exactly one record. */
  lemma EncodeDecode(b: bytes)
    requires |b| == SampleSize
    ensures Encode(Decode(b)) == b
  {
    var s := Decode(b);
    I16RoundTrip(U16Of(b[2], b[3]));
    I16RoundTrip(U16Of(b[6], b[7]));
    assert Encode(s) == b;
  }

  /** Distinct records have distinct packings. */
  lemma EncodeInjective(s: Sample, t: Sample)
    requires Encode(s) == Encode(t)
    ensures s == t
  {
    DecodeEncode(s);
    DecodeEncode(t);
  }
}

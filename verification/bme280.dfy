/**
  The BME280 helpers of src/bme280_sensor.cpp: assembly of the factory
  calibration from the sensor's trimming registers, unpacking of the raw
  readings, the integer compensation formulas, and the read sequence.

  The bus is a parameter: the bytes a register read returns, or `None` when
  the transfer fails. The compensated values stay integers in the formulas'
  own fixed-point units (hundredths of a degree, Pa/256, %RH/1024); the
  final conversions to float are not modelled.
 */
module Bme280 {
  import opened Base

  datatype Calib = Calib(
    t1: u16, t2: i16, t3: i16,
    p1: u16, p2: i16, p3: i16, p4: i16, p5: i16, p6: i16, p7: i16, p8: i16, p9: i16,
    h1: u8, h2: i16, h3: u8, h4: i16, h5: i16, h6: i8)

  // ---------------------------------------------------------------------------
  // Byte assembly
  // ---------------------------------------------------------------------------

  function Pow2(k: nat): (r: nat)
    ensures r >= 1
  {
    if k == 0 then 1 else 2 * Pow2(k - 1)
  }

  /** Shifting by a and then by b shifts by a + b. */
  lemma {:induction false} Pow2Add(a: nat, b: nat)
    ensures Pow2(a + b) == Pow2(a) * Pow2(b)
    decreases a
  {
    if a > 0 {
      calc {
        Pow2(a + b);
        2 * Pow2(a - 1 + b);
        { Pow2Add(a - 1, b); }
        2 * (Pow2(a - 1) * Pow2(b));
        (2 * Pow2(a - 1)) * Pow2(b);
      }
    }
  }

  /**
    A signed trimming word: `(int16_t)(hi << 8 | lo)`. The shifted byte and
    the low byte share no bit, so the or is the sum `U16Of` computes.
   */
  function Signed16(lo: u8, hi: u8): (r: i16)
    ensures AsU16(r) == U16Of(lo, hi)
  {
    I16RoundTrip(U16Of(lo, hi));
    AsI16(U16Of(lo, hi))
  }

  /** `(hi << 4) | (mid & 0x0F)`: twelve bits from a byte and the low nibble of the next. */
  function LowNibbleJoin(hi: u8, mid: u8): (r: int)
    ensures r / 16 == hi && r % 16 == mid % 16
    ensures 0 <= r < 4096
  {
    16 * hi as int + mid as int % 16
  }

  /** `(hi << 4) | (mid >> 4)`: twelve bits from a byte and the high nibble of the one before. */
  function HighNibbleJoin(hi: u8, mid: u8): (r: int)
    ensures r / 16 == hi && r % 16 == mid / 16
    ensures 0 <= r < 4096
  {
    16 * hi as int + mid as int / 16
  }

  // ---------------------------------------------------------------------------
  // Calibration
  // ---------------------------------------------------------------------------

  /**
    The temperature and pressure words from the 26 bytes read at 0x88:
    twelve little-endian pairs, T1 and P1 unsigned, the rest signed. The
    last two bytes are not used; the humidity words are left as they were.
   */
  function ReadTempPressCalib(prev: Calib, buf: bytes): (c: Calib)
    requires |buf| == 26
    ensures c.h1 == prev.h1 && c.h2 == prev.h2 && c.h3 == prev.h3
    ensures c.h4 == prev.h4 && c.h5 == prev.h5 && c.h6 == prev.h6
  {
    prev.(t1 := U16Of(buf[0], buf[1]), t2 := Signed16(buf[2], buf[3]), t3 := Signed16(buf[4], buf[5]),
          p1 := U16Of(buf[6], buf[7]), p2 := Signed16(buf[8], buf[9]), p3 := Signed16(buf[10], buf[11]),
          p4 := Signed16(buf[12], buf[13]), p5 := Signed16(buf[14], buf[15]), p6 := Signed16(buf[16], buf[17]),
          p7 := Signed16(buf[18], buf[19]), p8 := Signed16(buf[20], buf[21]), p9 := Signed16(buf[22], buf[23]))
  }

  /** The register image of the temperature and pressure words, in the order they are read. */
  function TempPressBytes(c: Calib): (r: bytes)
    ensures |r| == 24
  {
    U16Bytes(c.t1) + U16Bytes(AsU16(c.t2)) + U16Bytes(AsU16(c.t3))
    + U16Bytes(c.p1) + U16Bytes(AsU16(c.p2)) + U16Bytes(AsU16(c.p3))
    + U16Bytes(AsU16(c.p4)) + U16Bytes(AsU16(c.p5)) + U16Bytes(AsU16(c.p6))
    + U16Bytes(AsU16(c.p7)) + U16Bytes(AsU16(c.p8)) + U16Bytes(AsU16(c.p9))
  }

  /** A signed word survives the trip through its two register bytes. */
  lemma SignedWordRoundTrip(v: i16)
    ensures var b := U16Bytes(AsU16(v)); Signed16(b[0], b[1]) == v
  {
    var u := AsU16(v);
    assert U16Of(U16Bytes(u)[0], U16Bytes(u)[1]) == u;
  }

  /** Reading the register image of a calibration gives its temperature and pressure words back. */
  lemma {:induction false} TempPressRoundTrip(prev: Calib, c: Calib, unused: bytes)
    requires |unused| == 2
    ensures ReadTempPressCalib(prev, TempPressBytes(c) + unused)
            == c.(h1 := prev.h1, h2 := prev.h2, h3 := prev.h3, h4 := prev.h4, h5 := prev.h5, h6 := prev.h6)
  {
    var b := TempPressBytes(c) + unused;
    assert U16Of(b[0], b[1]) == c.t1 && U16Of(b[6], b[7]) == c.p1;
    SignedWordRoundTrip(c.t2);
    SignedWordRoundTrip(c.t3);
    SignedWordRoundTrip(c.p2);
    SignedWordRoundTrip(c.p3);
    SignedWordRoundTrip(c.p4);
    SignedWordRoundTrip(c.p5);
    SignedWordRoundTrip(c.p6);
    SignedWordRoundTrip(c.p7);
    SignedWordRoundTrip(c.p8);
    SignedWordRoundTrip(c.p9);
  }

  /**
    The humidity words from H1 and the seven bytes at 0xE1. H4 and H5 share
    the nibbles of hbuf[4] and are not sign-extended from twelve bits, so
    both lie in 0..4095.
   */
  function ReadHumidityCalib(prev: Calib, h1: u8, hbuf: bytes): (c: Calib)
    requires |hbuf| == 7
    ensures c.h1 == h1 && AsU16(c.h2) == U16Of(hbuf[0], hbuf[1]) && c.h3 == hbuf[2]
    ensures c.h4 / 16 == hbuf[3] && c.h4 % 16 == hbuf[4] % 16
    ensures c.h5 / 16 == hbuf[5] && c.h5 % 16 == hbuf[4] / 16
    ensures 0 <= c.h4 < 4096 && 0 <= c.h5 < 4096
    ensures c.h6 < 0 <==> hbuf[6] >= 0x80
    ensures c.(h1 := prev.h1, h2 := prev.h2, h3 := prev.h3, h4 := prev.h4, h5 := prev.h5, h6 := prev.h6) == prev
  {
    prev.(h1 := h1, h2 := Signed16(hbuf[0], hbuf[1]), h3 := hbuf[2],
          h4 := LowNibbleJoin(hbuf[3], hbuf[4]), h5 := HighNibbleJoin(hbuf[5], hbuf[4]),
          h6 := AsI8(hbuf[6]))
  }

  /** The three register bytes that hold a twelve-bit H4 and H5. */
  function H45Bytes(h4: int, h5: int): (r: bytes)
    requires 0 <= h4 < 4096 && 0 <= h5 < 4096
    ensures |r| == 3
  {
    [h4 / 16, (h5 % 16) * 16 + h4 % 16, h5 / 16]
  }

  /** The nibble split is exact: H4 and H5 can be written back to the registers they came from. */
  lemma H45RoundTrip(h4: int, h5: int)
    requires 0 <= h4 < 4096 && 0 <= h5 < 4096
    ensures var b := H45Bytes(h4, h5);
            LowNibbleJoin(b[0], b[1]) == h4 && HighNibbleJoin(b[2], b[1]) == h5
  {
  }

  /** ... and every register triple is the image of the H4 and H5 it yields. */
  lemma H45BytesInverse(b3: u8, b4: u8, b5: u8)
    ensures H45Bytes(LowNibbleJoin(b3, b4), HighNibbleJoin(b5, b4)) == [b3, b4, b5]
  {
  }

  datatype CalibOutcome = CalibOutcome(ok: bool, calib: Calib)

  /**
    `read_calibration_data`: the 26-byte temperature/pressure block, then,
    on a BME280 only, H1 and the 7-byte humidity block. A failed transfer
    stops the sequence with what was stored so far: H1 is read straight into
    the calibration, so it is kept even when the humidity block then fails.
   */
  function ReadCalibration(prev: Calib, hasHumidity: bool, tp: Option<bytes>, h1: Option<u8>,
                           hum: Option<bytes>): (r: CalibOutcome)
    requires tp.Some? ==> |tp.value| == 26
    requires hum.Some? ==> |hum.value| == 7
    ensures r.ok <==> tp.Some? && (hasHumidity ==> h1.Some? && hum.Some?)
    ensures tp.None? ==> r.calib == prev
    ensures tp.Some? ==> r.calib.(h1 := prev.h1, h2 := prev.h2, h3 := prev.h3,
                                  h4 := prev.h4, h5 := prev.h5, h6 := prev.h6)
                         == ReadTempPressCalib(prev, tp.value)
    ensures tp.Some? && hasHumidity && h1.Some? && hum.Some? ==>
              r.calib == ReadHumidityCalib(ReadTempPressCalib(prev, tp.value), h1.value, hum.value)
    ensures tp.Some? && hasHumidity && h1.Some? ==> r.calib.h1 == h1.value
    ensures !(tp.Some? && hasHumidity && h1.Some?) ==> r.calib.h1 == prev.h1
    ensures !(tp.Some? && hasHumidity && h1.Some? && hum.Some?) ==>
              && r.calib.h2 == prev.h2 && r.calib.h3 == prev.h3 && r.calib.h4 == prev.h4
              && r.calib.h5 == prev.h5 && r.calib.h6 == prev.h6
  {
    match tp
    case None => CalibOutcome(false, prev)
    case Some(buf) =>
      var c := ReadTempPressCalib(prev, buf);
      if !hasHumidity then CalibOutcome(true, c)
      else
        match (h1, hum)
        case (Some(v), Some(hbuf)) => CalibOutcome(true, ReadHumidityCalib(c, v, hbuf))
        case (Some(v), None) => CalibOutcome(false, c.(h1 := v))
        case (None, _) => CalibOutcome(false, c)
  }

  // ---------------------------------------------------------------------------
  // Raw readings
  // ---------------------------------------------------------------------------

  /** A 20-bit reading: `msb << 12 | lsb << 4 | xlsb >> 4`, the three parts on disjoint bits. */
  function Raw20(msb: u8, lsb: u8, xlsb: u8): (r: int)
    ensures 0 <= r < 0x10_0000
  {
    4096 * msb as int + 16 * lsb as int + xlsb as int / 16
  }

  /** A 16-bit reading: `msb << 8 | lsb`. */
  function Raw16(msb: u8, lsb: u8): (r: u16)
    ensures r / 256 == msb && r % 256 == lsb
  {
    U16Of(lsb, msb)
  }

  /** The register bytes a 20-bit reading is spread over (the low nibble of the last is unused). */
  function Raw20Bytes(v: int): (r: bytes)
    requires 0 <= v < 0x10_0000
    ensures |r| == 3
  {
    [v / 4096, (v / 16) % 256, (v % 16) * 16]
  }

  /** Unpacking recovers every 20-bit value from its register bytes. */
  lemma Raw20RoundTrip(v: int)
    requires 0 <= v < 0x10_0000
    ensures var b := Raw20Bytes(v); Raw20(b[0], b[1], b[2]) == v
  {
    var b := Raw20Bytes(v);
    assert v == 4096 * (v / 4096) + 16 * ((v / 16) % 256) + v % 16;
    assert b[2] / 16 == v % 16;
  }

  /** Only the top nibble of the last byte counts: readings differ only if their bytes do there. */
  lemma Raw20Injective(m1: u8, l1: u8, x1: u8, m2: u8, l2: u8, x2: u8)
    requires Raw20(m1, l1, x1) == Raw20(m2, l2, x2)
    ensures m1 == m2 && l1 == l2 && x1 / 16 == x2 / 16
  {
  }

  /** The value the sensor reports while a measurement is missing (skipped channel). */
  const Skipped := 0x80000

  // ---------------------------------------------------------------------------
  // Compensation
  // ---------------------------------------------------------------------------

  /** `x >> k` on a signed value: floor division by 2^k. */
  function Shr(x: int, k: nat): int
  {
    x / Pow2(k)
  }

  /** The shift rounds toward minus infinity: x lies in [r·2^k, r·2^k + 2^k) for r = x >> k. */
  lemma ShrFloor(x: int, k: nat)
    ensures Shr(x, k) * Pow2(k) <= x < Shr(x, k) * Pow2(k) + Pow2(k)
  {
    var p := Pow2(k);
    assert x == p * (x / p) + x % p && 0 <= x % p < p;
  }

  /** Two arithmetic right shifts compose into one: `(x >> a) >> b == x >> (a + b)`. */
  lemma ShrShr(x: int, a: nat, b: nat)
    ensures Shr(Shr(x, a), b) == Shr(x, a + b)
  {
    Pow2Add(a, b);
    DivDiv(x, Pow2(a), Pow2(b));
  }

  /** Floor division by p and then by q is floor division by p * q. */
  lemma DivDiv(x: int, p: int, q: int)
    requires p > 0 && q > 0
    ensures x / p / q == x / (p * q)
  {
    var y := x / p;
    var z := y / q;
    assert y * p <= x < y * p + p;
    assert z * q <= y < z * q + q;
    assert (z * q) * p == z * (p * q);
    assert (z * q + q) * p == z * (p * q) + p * q;
    assert (y + 1) * p == y * p + p;
    MulMono(z * q, y, p);
    MulMono(y + 1, z * q + q, p);
    DivUnique(x, p * q, z);
  }

  /** Multiplying by a non-negative factor keeps the order. */
  lemma MulMono(a: int, b: int, d: int)
    requires a <= b && d >= 0
    ensures a * d <= b * d
  {
    assert b * d - a * d == (b - a) * d;
  }

  /** The quotient is the only integer whose multiples bracket x. */
  lemma DivUnique(x: int, d: int, z: int)
    requires d > 0 && z * d <= x < z * d + d
    ensures x / d == z
  {
    var q := x / d;
    assert q * d <= x < q * d + d;
    assert (q + 1) * d == q * d + d && (z + 1) * d == z * d + d;
    if z > q {
      MulMono(q + 1, z, d);
    } else if z < q {
      MulMono(z + 1, q, d);
    }
  }

  datatype Temperature = Temperature(tFine: int, hundredths: int)

  /**
    `compensate_temperature`: the fine temperature shared with the other
    formulas, and the temperature in hundredths of a degree, which is
    5 * t_fine / 256 rounded to the nearest integer (halves upward).
   */
  function CompensateTemperature(c: Calib, adcT: int): (r: Temperature)
    ensures 256 * r.hundredths - 128 <= 5 * r.tFine < 256 * r.hundredths + 128
  {
    var var1 := Shr((Shr(adcT, 3) - c.t1 * 2) * c.t2, 11);
    var d := Shr(adcT, 4) - c.t1;
    var var2 := Shr(Shr(d * d, 12) * c.t3, 14);
    var tFine := var1 + var2;
    Temperature(tFine, Shr(tFine * 5 + 128, 8))
  }

  /** The denominator of the pressure formula, before the guard. */
  function PressureDivisor(c: Calib, tFine: int): int
  {
    var v := tFine - 128000;
    var v1 := Shr(v * v * c.p3, 8) + (v * c.p2) * Pow2(12);
    Shr((Pow2(47) + v1) * c.p1, 33)
  }

  /**
    `compensate_pressure`, in Pa/256: 0 when the denominator is 0; the
    division truncates toward zero as C's does.
   */
  function CompensatePressure(c: Calib, tFine: int, adcP: int): (r: int)
    ensures PressureDivisor(c, tFine) == 0 ==> r == 0
  {
    var divisor := PressureDivisor(c, tFine);
    if divisor == 0 then 0
    else
      var v := tFine - 128000;
      var var2 := v * v * c.p6 + (v * c.p5) * Pow2(17) + c.p4 * Pow2(35);
      var p := 1048576 - adcP;
      var p := CDiv((p * Pow2(31) - var2) * 3125, divisor);
      var var1 := Shr(c.p9 * Shr(p, 13) * Shr(p, 13), 25);
      var var2 := Shr(c.p8 * p, 19);
      Shr(p + var1 + var2, 8) + c.p7 * Pow2(4)
  }

  /** With P1 zero (no calibration read) the pressure is 0 and nothing is divided. */
  lemma PressureWithoutCalibration(c: Calib, tFine: int, adcP: int)
    requires c.p1 == 0
    ensures CompensatePressure(c, tFine, adcP) == 0
  {
  }

  /** The humidity formula before its clamp, in %RH/1024 shifted left by 12. */
  function HumidityRaw(c: Calib, tFine: int, adcH: int): int
  {
    var v := tFine - 76800;
    var a := Shr(adcH * Pow2(14) - c.h4 * Pow2(20) - c.h5 * v + 16384, 15);
    var b := Shr(Shr(v * c.h6, 10) * (Shr(v * c.h3, 11) + 32768), 10) + 2097152;
    var v := a * Shr(b * c.h2 + 8192, 14);
    v - Shr(Shr(Shr(v, 15) * Shr(v, 15), 7) * c.h1, 4)
  }

  /**
    `compensate_humidity`, in %RH/1024: the raw value clamped to
    [0, 419430400] and shifted right by 12, so the result is 0..100 %RH;
    inside the clamp range it is the raw value's top bits.
   */
  function CompensateHumidity(c: Calib, tFine: int, adcH: int): (r: int)
    ensures 0 <= r <= 100 * 1024
    ensures var raw := HumidityRaw(c, tFine, adcH);
            && (raw <= 0 ==> r == 0)
            && (raw >= 419430400 ==> r == 100 * 1024)
            && (0 <= raw <= 419430400 ==> 4096 * r <= raw < 4096 * r + 4096)
  {
    var raw := HumidityRaw(c, tFine, adcH);
    var v := if raw < 0 then 0 else raw;
    var v := if v > 419430400 then 419430400 else v;
    Shr(v, 12)
  }

  // ---------------------------------------------------------------------------
  // Reading
  // ---------------------------------------------------------------------------

  datatype Err = Ok | Fail | InvalidState | BusError

  /** The caller's result structure. */
  datatype Reading = Reading(temperature: int, pressure: int, humidity: int, valid: bool)

  datatype ReadOutcome = ReadOutcome(err: Err, data: Reading, tFine: int)

  /**
    `bme280_read`: refused before initialisation or without a result
    structure; otherwise the result is marked invalid, the eight data bytes
    are read, a skipped temperature or pressure channel fails the read, and
    a complete read fills in the compensated values (humidity 0 on a BMP280).
   */
  function Read(initialized: bool, hasData: bool, hasHumidity: bool, c: Calib, tFine: int,
                prev: Reading, bus: Option<bytes>): (r: ReadOutcome)
    requires bus.Some? ==> |bus.value| == 8
    ensures !initialized || !hasData ==> r == ReadOutcome(InvalidState, prev, tFine)
    ensures r.err != InvalidState ==> (r.err == Ok <==> r.data.valid)
    ensures initialized && hasData && bus.None? ==> r == ReadOutcome(BusError, prev.(valid := false), tFine)
    ensures initialized && hasData && bus.Some? ==>
              var b := bus.value;
              var adcP := Raw20(b[0], b[1], b[2]);
              var adcT := Raw20(b[3], b[4], b[5]);
              && (adcT == Skipped || adcP == Skipped <==> r.err == Fail)
              && (r.err == Fail ==> r.data == prev.(valid := false) && r.tFine == tFine)
              && (r.err == Ok ==>
                    var t := CompensateTemperature(c, adcT);
                    && r.tFine == t.tFine
                    && r.data.temperature == t.hundredths
                    && r.data.pressure == CompensatePressure(c, t.tFine, adcP)
                    && r.data.humidity == (if hasHumidity then CompensateHumidity(c, t.tFine, Raw16(b[6], b[7])) else 0))
  {
    if !initialized || !hasData then ReadOutcome(InvalidState, prev, tFine)
    else
      var cleared := prev.(valid := false);
      match bus
      case None => ReadOutcome(BusError, cleared, tFine)
      case Some(b) =>
        var adcP := Raw20(b[0], b[1], b[2]);
        var adcT := Raw20(b[3], b[4], b[5]);
        var adcH := Raw16(b[6], b[7]);
        if adcT == Skipped || adcP == Skipped then ReadOutcome(Fail, cleared, tFine)
        else
          var t := CompensateTemperature(c, adcT);
          var pressure := CompensatePressure(c, t.tFine, adcP);
          var humidity := if hasHumidity then CompensateHumidity(c, t.tFine, adcH) else 0;
          ReadOutcome(Ok, Reading(t.hundredths, pressure, humidity, true), t.tFine)
  }

  /** A valid reading always carries a humidity within 0..100 %RH. */
  lemma ValidReadingHumidityInRange(initialized: bool, hasData: bool, hasHumidity: bool, c: Calib,
                                    tFine: int, prev: Reading, bus: Option<bytes>)
    requires bus.Some? ==> |bus.value| == 8
    requires Read(initialized, hasData, hasHumidity, c, tFine, prev, bus).err == Ok
    ensures 0 <= Read(initialized, hasData, hasHumidity, c, tFine, prev, bus).data.humidity <= 100 * 1024
  {
  }
}

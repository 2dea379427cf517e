/**
  The daily history buffer (src/history_manager.cpp): 1440 minute-indexed
  slots plus a dated header, insertion by minute, day rollover, save and load
  of the dated file, and the reconciliation a load runs against the clock.

  The firmware keeps one global buffer; here every operation takes the buffer
  value and returns the next one. The filesystem is a map from file name to
  contents, the clock's date and minute are parameters, and what the flash
  accepts on a write is a `Device` parameter.
 */
module History {
  import opened Base
  import opened Text
  import opened Sample
  import opened HistoryFormat

  /** The `esp_err_t` codes the history API returns. */
  datatype Err = Ok | Fail | NoMem | InvalidState | InvalidArg | NotFound | InvalidVersion

  /** The PSRAM array: exactly one slot per minute of the day. */
  type Slots = s: seq<Sample> | |s| == 1440 witness seq(1440, i => Sample(0, 0, 0, 0, 0, 0, 0, 0))

  /**
    The buffer state. `hasMemory` stands for the PSRAM allocation having succeeded;
    `samples` is meaningful only when it is set.
   */
  datatype Buffer = Buffer(
    header: Header,
    samples: Slots,
    currentMinute: u16,
    hasMemory: bool,
    initialized: bool,
    dirty: bool)

  type Fs = map<string, bytes>

  /** The flash as a write sees it: whether the file opens, and how many bytes it takes. */
  datatype Device = Device(opens: bool, capacity: nat)

  datatype Outcome = Outcome(buffer: Buffer, err: Err)
  datatype SaveResult = SaveResult(buffer: Buffer, fs: Fs, err: Err)
  datatype DayChange = DayChange(buffer: Buffer, fs: Fs, changed: bool)
  datatype Lookup = Lookup(err: Err, sample: Option<Sample>)
  datatype Stats = Stats(minTemp: int, maxTemp: int, avgTemp: real, heaterOnMinutes: nat)

  /** The high-water mark and the last written minute stay inside the day. */
  predicate Consistent(b: Buffer)
  {
    b.header.numSamples <= SamplesPerDay && b.currentMinute < SamplesPerDay
  }

  /** Every slot cleared. */
  function Cleared(): (ss: Slots)
    ensures forall i :: 0 <= i < SamplesPerDay ==> ss[i] == Empty(i)
  {
    seq(SamplesPerDay, i requires 0 <= i < SamplesPerDay => Empty(i))
  }

  // ---------------------------------------------------------------------------
  // Header and slots
  // ---------------------------------------------------------------------------

  /** A fresh header for a day: "TLOG", format 1, that date, nothing written yet. */
  function InitHeaderForDate(d: Date): (h: Header)
    ensures h.magic == Magic && h.version == Version
    ensures DateOf(h) == d
    ensures h.numSamples == 0 && h.reserved == 0
  {
    Header(Magic, Version, d.year, d.month, d.day, 0, 0)
  }

  /**
    Resets every slot to "no data" keyed by its own minute; the header and the
    allocation flags are not touched.
   */
  function ClearSamples(b: Buffer): (r: Buffer)
    ensures forall i :: 0 <= i < SamplesPerDay ==>
      var s := r.samples[i];
      && s.minuteOfDay == i && s.temperature == -32768 && s.humidity == 255
      && s.flags == 0 && s.setpoint == -32768 && s.activeBank == 0
      && s.reserved == 0 && s.pressure == 0
    ensures forall i :: 0 <= i < SamplesPerDay ==> !IsValid(r.samples[i])
    ensures r.currentMinute == 0 && !r.dirty
    ensures r.header == b.header && r.hasMemory == b.hasMemory && r.initialized == b.initialized
  {
    b.(samples := Cleared(), currentMinute := 0, dirty := false)
  }

  /** The dated file name, `/spiffs/log_YYYYMMDD.bin`. */
  function FileName(d: Date): string
  {
    "/spiffs/log_" + DateDigits(d) + ".bin"
  }

  /** The zero-padded digits between "log_" and ".bin". */
  function DateDigits(d: Date): string
  {
    Padded(d.year, 4) + Padded(d.month, 2) + Padded(d.day, 2)
  }

  /**
    For a four-digit year the name has 24 characters, the date digits sit at
    [12, 20) and read back as the date, so distinct days never share a file.
   */
  lemma FileNameLayout(d: Date)
    requires d.year < 10000 && d.month < 100 && d.day < 100
    ensures var s := DateDigits(d);
            && |s| == 8 && AllDigits(s)
            && ValueOf(s[..4]) == d.year && ValueOf(s[4..6]) == d.month && ValueOf(s[6..]) == d.day
    ensures FileName(d) == "/spiffs/log_" + DateDigits(d) + ".bin"
    ensures |FileName(d)| == 24
  {
    DateDigitsLayout(d);
  }

  /** Each field is padded to its width, so the fields sit at fixed places in the 8 digits. */
  lemma DateDigitsLayout(d: Date)
    requires d.year < 10000 && d.month < 100 && d.day < 100
    ensures |DateDigits(d)| == 8 && AllDigits(DateDigits(d))
    ensures ValueOf(DateDigits(d)[..4]) == d.year
    ensures ValueOf(DateDigits(d)[4..6]) == d.month
    ensures ValueOf(DateDigits(d)[6..]) == d.day
  {
    var y, m, dd := Padded(d.year, 4), Padded(d.month, 2), Padded(d.day, 2);
    assert Pow10(2) == 100 && Pow10(4) == 10000;
    PaddedWidth(d.year, 4);
    PaddedWidth(d.month, 2);
    PaddedWidth(d.day, 2);
    ValueOfAppend(y, m);
    ValueOfAppend(y + m, dd);
    SplitThree(y, m, dd);
  }

  lemma SplitThree(y: string, m: string, d: string)
    requires |y| == 4 && |m| == 2 && |d| == 2
    ensures (y + m + d)[..4] == y && (y + m + d)[4..6] == m && (y + m + d)[6..] == d
  {
  }

  lemma FileNameInjective(d: Date, e: Date)
    requires d.year < 10000 && d.month < 100 && d.day < 100
    requires e.year < 10000 && e.month < 100 && e.day < 100
    requires FileName(d) == FileName(e)
    ensures d == e
  {
    FileNameLayout(d);
    FileNameLayout(e);
    assert DateDigits(d) == FileName(d)[12..20];
    assert DateDigits(e) == FileName(e)[12..20];
  }

  /** `history_file_exists`: a stat of the dated name. */
  function FileExists(fs: Fs, d: Date): bool
  {
    FileName(d) in fs
  }

  // ---------------------------------------------------------------------------
  // Insertion and queries
  // ---------------------------------------------------------------------------

  /**
    `history_add_sample`: last write wins on the sample's own minute, the
    high-water mark only grows, and the buffer becomes dirty.
   */
  function AddSample(b: Buffer, s: Sample): (r: Outcome)
    ensures !b.initialized || !b.hasMemory ==> r.err == InvalidState && r.buffer == b
    ensures b.initialized && b.hasMemory && s.minuteOfDay >= SamplesPerDay ==>
              r.err == InvalidArg && r.buffer == b
    ensures r.err == Ok <==> b.initialized && b.hasMemory && s.minuteOfDay < SamplesPerDay
    ensures r.err == Ok ==>
              && r.buffer.samples[s.minuteOfDay] == s
              && (forall i :: 0 <= i < SamplesPerDay && i != s.minuteOfDay ==> r.buffer.samples[i] == b.samples[i])
              && r.buffer.header.numSamples == Max(b.header.numSamples, s.minuteOfDay + 1)
              && r.buffer.header == b.header.(numSamples := r.buffer.header.numSamples)
              && r.buffer.currentMinute == s.minuteOfDay
              && r.buffer.dirty
              && r.buffer.hasMemory && r.buffer.initialized
    ensures Consistent(b) ==> Consistent(r.buffer)
  {
    if !b.initialized || !b.hasMemory then Outcome(b, InvalidState)
    else if s.minuteOfDay >= SamplesPerDay then Outcome(b, InvalidArg)
    else
      var m := s.minuteOfDay;
      var h := if m >= b.header.numSamples then b.header.(numSamples := m + 1) else b.header;
      Outcome(b.(samples := b.samples[m := s], header := h, currentMinute := m, dirty := true), Ok)
  }

  /**
    `history_get_sample`: the slot is copied out whether or not it holds data;
    the code says which.
   */
  function GetSample(b: Buffer, m: u16): (r: Lookup)
    ensures !b.initialized || !b.hasMemory ==> r == Lookup(InvalidState, None)
    ensures b.initialized && b.hasMemory && m >= SamplesPerDay ==> r == Lookup(InvalidArg, None)
    ensures b.initialized && b.hasMemory && m < SamplesPerDay ==>
              && r.sample == Some(b.samples[m])
              && (r.err == NotFound <==> b.samples[m].temperature == -32768)
              && (r.err == Ok <==> IsValid(b.samples[m]))
  {
    if !b.initialized || !b.hasMemory then Lookup(InvalidState, None)
    else if m >= SamplesPerDay then Lookup(InvalidArg, None)
    else if b.samples[m].temperature == TempNone then Lookup(NotFound, Some(b.samples[m]))
    else Lookup(Ok, Some(b.samples[m]))
  }

  /** `history_get_sample_count`: the high-water mark, 0 before initialisation. */
  function GetSampleCount(b: Buffer): (r: u16)
    ensures !b.initialized ==> r == 0
    ensures b.initialized ==> r == b.header.numSamples
    ensures Consistent(b) ==> r <= SamplesPerDay
  {
    if !b.initialized then 0 else b.header.numSamples
  }

  /** `history_get_buffer`: a read-only view, absent before initialisation. */
  function GetBuffer(b: Buffer): (r: Option<Buffer>)
    ensures r.Some? <==> b.initialized
    ensures r.Some? ==> r.value == b
  {
    if b.initialized then Some(b) else None
  }

  /** A write followed by a read of the same minute gives back what was written. */
  lemma AddThenGet(b: Buffer, s: Sample)
    requires b.initialized && b.hasMemory && s.minuteOfDay < SamplesPerDay
    ensures GetSample(AddSample(b, s).buffer, s.minuteOfDay).sample == Some(s)
    ensures GetSample(AddSample(b, s).buffer, s.minuteOfDay).err == (if IsValid(s) then Ok else NotFound)
  {
  }

  /**
    Two writes to the same minute leave only the second, and the high-water mark
    is what the second write alone would have left: nothing accumulates.
   */
  lemma LastWriteWins(b: Buffer, s: Sample, t: Sample)
    requires b.initialized && b.hasMemory && s.minuteOfDay < SamplesPerDay
    requires t.minuteOfDay == s.minuteOfDay
    ensures AddSample(AddSample(b, s).buffer, t).buffer == AddSample(b, t).buffer
  {
    var m := s.minuteOfDay;
    assert b.samples[m := s][m := t] == b.samples[m := t];
  }

  // ---------------------------------------------------------------------------
  // Statistics
  // ---------------------------------------------------------------------------

  /** The running values of the statistics loop, in hundredths of a degree. */
  datatype Scan = Scan(tMin: int, tMax: int, sum: int, count: nat, heater: nat)

  ghost function ValidIndices(ss: seq<Sample>): set<int>
  {
    set i | 0 <= i < |ss| && IsValid(ss[i])
  }

  ghost function HeaterIndices(ss: seq<Sample>): set<int>
  {
    set i | 0 <= i < |ss| && IsValid(ss[i]) && HasFlag(ss[i].flags, FlagRelayOn)
  }

  /** The sum of the valid slots' temperatures, in hundredths, over the slots in index order. */
  ghost function SumValid(ss: seq<Sample>): int
  {
    if |ss| == 0 then 0
    else SumValid(ss[..|ss| - 1]) + (if IsValid(ss[|ss| - 1]) then ss[|ss| - 1].temperature else 0)
  }

  /** Appending one slot adds its index to the valid set exactly when it is valid. */
  lemma IndicesSnoc(ss: seq<Sample>)
    requires |ss| > 0
    ensures var n := |ss| - 1;
            var s := ss[n];
            && |ValidIndices(ss)| == |ValidIndices(ss[..n])| + (if IsValid(s) then 1 else 0)
            && |HeaterIndices(ss)| == |HeaterIndices(ss[..n])| + (if IsValid(s) && HasFlag(s.flags, FlagRelayOn) then 1 else 0)
  {
    ValidSnoc(ss);
    HeaterSnoc(ss);
  }

  lemma ValidSnoc(ss: seq<Sample>)
    requires |ss| > 0
    ensures |ValidIndices(ss)| == |ValidIndices(ss[..|ss| - 1])| + (if IsValid(ss[|ss| - 1]) then 1 else 0)
  {
    var n := |ss| - 1;
    var prev := ValidIndices(ss[..n]);
    var extra: set<int> := if IsValid(ss[n]) then {n} else {};
    forall i | i in ValidIndices(ss) ensures i in prev + extra {
      if i < n { assert ss[..n][i] == ss[i]; }
    }
    forall i | i in prev + extra ensures i in ValidIndices(ss) {
      if i < n { assert ss[..n][i] == ss[i]; }
    }
    assert ValidIndices(ss) == prev + extra;
    assert n !in prev;
  }

  lemma HeaterSnoc(ss: seq<Sample>)
    requires |ss| > 0
    ensures |HeaterIndices(ss)| == |HeaterIndices(ss[..|ss| - 1])|
              + (if IsValid(ss[|ss| - 1]) && HasFlag(ss[|ss| - 1].flags, FlagRelayOn) then 1 else 0)
  {
    var n := |ss| - 1;
    var prev := HeaterIndices(ss[..n]);
    var extra: set<int> := if IsValid(ss[n]) && HasFlag(ss[n].flags, FlagRelayOn) then {n} else {};
    forall i | i in HeaterIndices(ss) ensures i in prev + extra {
      if i < n { assert ss[..n][i] == ss[i]; }
    }
    forall i | i in prev + extra ensures i in HeaterIndices(ss) {
      if i < n { assert ss[..n][i] == ss[i]; }
    }
    assert HeaterIndices(ss) == prev + extra;
    assert n !in prev;
  }

  /** One iteration of the statistics loop on a valid slot. */
  function ScanStep(p: Scan, s: Sample): (r: Scan)
    requires p.count * p.tMin <= p.sum <= p.count * p.tMax
    ensures r.tMin == Min(p.tMin, s.temperature) && r.tMax == Max(p.tMax, s.temperature)
    ensures r.sum == p.sum + s.temperature
    ensures r.count == p.count + 1
    ensures r.heater == p.heater + (if HasFlag(s.flags, FlagRelayOn) then 1 else 0)
    ensures r.count * r.tMin <= r.sum <= r.count * r.tMax
  {
    var t := s.temperature;
    var r := Scan(if t < p.tMin then t else p.tMin,
                  if t > p.tMax then t else p.tMax,
                  p.sum + t,
                  p.count + 1,
                  if HasFlag(s.flags, FlagRelayOn) then p.heater + 1 else p.heater);
    MeanBounds(p.count, p.tMin, p.tMax, p.sum, r.tMin, r.tMax, t);
    r
  }

  /**
    The loop of `history_get_stats` over a prefix of the slots, seeded with
    100.00 for the minimum and -100.00 for the maximum.
   */
  function ScanSlots(ss: seq<Sample>): (r: Scan)
    ensures r.count == |ValidIndices(ss)|
    ensures r.heater == |HeaterIndices(ss)|
    ensures forall i :: 0 <= i < |ss| && IsValid(ss[i]) ==> r.tMin <= ss[i].temperature <= r.tMax
    ensures r.tMin <= 10000 && (r.tMin == 10000 || exists i :: 0 <= i < |ss| && IsValid(ss[i]) && ss[i].temperature == r.tMin)
    ensures r.tMax >= -10000 && (r.tMax == -10000 || exists i :: 0 <= i < |ss| && IsValid(ss[i]) && ss[i].temperature == r.tMax)
    ensures r.count * r.tMin <= r.sum <= r.count * r.tMax
    ensures r.sum == SumValid(ss)
  {
    if |ss| == 0 then Scan(10000, -10000, 0, 0, 0)
    else
      var n := |ss| - 1;
      var init := ss[..n];
      var p := ScanSlots(init);
      IndicesSnoc(ss);
      assert forall i :: 0 <= i < n ==> ss[i] == init[i];
      var r := if !IsValid(ss[n]) then p else ScanStep(p, ss[n]);
      assert r.tMin <= p.tMin && p.tMax <= r.tMax;
      forall i | 0 <= i < |ss| && IsValid(ss[i])
        ensures r.tMin <= ss[i].temperature <= r.tMax
      {
        if i < n { assert IsValid(init[i]); }
      }
      r
  }

  lemma MeanBounds(count: nat, lo: int, hi: int, sum: int, lo': int, hi': int, t: int)
    requires count * lo <= sum <= count * hi
    requires lo' <= lo && lo' <= t && hi' >= hi && hi' >= t
    ensures (count + 1) * lo' <= sum + t <= (count + 1) * hi'
  {
    assert count * lo' <= count * lo;
    assert count * hi <= count * hi';
  }

  /**
    `history_get_stats`: nothing when uninitialised; otherwise min, max and mean
    of the valid slots (all zero when there is none) and the minutes whose relay
    flag is set on a valid slot. Because of the seeds the minimum never exceeds
    100.00 and the maximum never falls below -100.00.
   */
  function GetStats(b: Buffer): (r: Option<Stats>)
    ensures r.None? <==> !b.initialized || !b.hasMemory
    ensures r.Some? ==>
      var st := r.value;
      var valid := ValidIndices(b.samples);
      && st.heaterOnMinutes == |HeaterIndices(b.samples)|
      && (|valid| == 0 ==> st.minTemp == 0 && st.maxTemp == 0 && st.avgTemp == 0.0)
      && (|valid| > 0 ==>
            && st.minTemp <= 10000 && st.maxTemp >= -10000
            && (forall i :: 0 <= i < SamplesPerDay && IsValid(b.samples[i]) ==>
                  st.minTemp <= b.samples[i].temperature <= st.maxTemp)
            && (st.minTemp == 10000 || exists i :: 0 <= i < SamplesPerDay && IsValid(b.samples[i]) && b.samples[i].temperature == st.minTemp)
            && (st.maxTemp == -10000 || exists i :: 0 <= i < SamplesPerDay && IsValid(b.samples[i]) && b.samples[i].temperature == st.maxTemp)
            && st.avgTemp == SumValid(b.samples) as real / |valid| as real
            && st.minTemp as real <= st.avgTemp <= st.maxTemp as real)
  {
    if !b.initialized || !b.hasMemory then None
    else
      var sc := ScanSlots(b.samples);
      if sc.count > 0 then
        var avg := sc.sum as real / sc.count as real;
        MeanBetween(sc.count, sc.tMin, sc.tMax, sc.sum);
        Some(Stats(sc.tMin, sc.tMax, avg, sc.heater))
      else
        Some(Stats(0, 0, 0.0, sc.heater))
  }

  lemma MeanBetween(count: nat, lo: int, hi: int, sum: int)
    requires count > 0 && count * lo <= sum <= count * hi
    ensures lo as real <= sum as real / count as real <= hi as real
  {
    var c, m := count as real, sum as real / count as real;
    assert (count * lo) as real == c * lo as real && (count * hi) as real == c * hi as real;
    assert m - lo as real == (sum as real - c * lo as real) / c;
    assert hi as real - m == (c * hi as real - sum as real) / c;
  }

  /** A freshly cleared day has no valid slot, so every statistic is zero. */
  lemma StatsOfClearedBuffer(b: Buffer)
    requires b.initialized && b.hasMemory
    ensures GetStats(ClearSamples(b)) == Some(Stats(0, 0, 0.0, 0))
  {
    var c := ClearSamples(b);
    assert ValidIndices(c.samples) == {};
    assert HeaterIndices(c.samples) == {};
  }

  // ---------------------------------------------------------------------------
  // Saving
  // ---------------------------------------------------------------------------

  /**
    `history_save_to_file`: opens the dated name for writing (truncating it)
    and writes the header, then all 1440 records. `dirty` is cleared only when
    both writes complete; a short write leaves the bytes that made it.
   */
  function Save(b: Buffer, fs: Fs, dev: Device): (r: SaveResult)
    ensures !b.initialized || !b.hasMemory ==> r == SaveResult(b, fs, InvalidState)
    ensures b.initialized && b.hasMemory && !dev.opens ==> r == SaveResult(b, fs, Fail)
    ensures r.err == Ok <==> b.initialized && b.hasMemory && dev.opens && dev.capacity >= FileSize
    ensures r.err == Ok ==>
              && r.fs == fs[FileName(DateOf(b.header)) := Image(b.header, b.samples)]
              && r.buffer == b.(dirty := false)
    ensures b.initialized && b.hasMemory && dev.opens && dev.capacity < FileSize ==>
              && r.err == Fail && r.buffer == b
              && r.fs == fs[FileName(DateOf(b.header)) := Image(b.header, b.samples)[..dev.capacity]]
    ensures r.buffer == b.(dirty := r.buffer.dirty)
  {
    if !b.initialized || !b.hasMemory then SaveResult(b, fs, InvalidState)
    else if !dev.opens then SaveResult(b, fs, Fail)
    else
      var name := FileName(DateOf(b.header));
      var image := Image(b.header, b.samples);
      if dev.capacity < FileSize then SaveResult(b, fs[name := image[..dev.capacity]], Fail)
      else SaveResult(b.(dirty := false), fs[name := image], Ok)
  }

  /**
    The existence test agrees with saving: a save that opens the file creates
    it, even when the write falls short, and a save never removes a file.
   */
  lemma SaveCreatesFile(b: Buffer, fs: Fs, dev: Device, d: Date)
    ensures b.initialized && b.hasMemory && dev.opens ==> FileExists(Save(b, fs, dev).fs, DateOf(b.header))
    ensures FileExists(fs, d) ==> FileExists(Save(b, fs, dev).fs, d)
  {
    var r := Save(b, fs, dev);
    assert r.fs.Keys >= fs.Keys;
  }

  // ---------------------------------------------------------------------------
  // Loading
  // ---------------------------------------------------------------------------

  /**
    The header after `fread(&header, 1, 12, f)`: the bytes the file has
    overwrite the leading bytes of the previous header.
   */
  function ReadHeader(prev: Header, file: bytes): Header
  {
    DecodeHeader(Overlay(EncodeHeader(prev), file[..Min(|file|, HeaderSize)]))
  }

  /** A file holding a whole header replaces every header byte: the header is the file's first bytes. */
  lemma FullHeaderRead(prev: Header, file: bytes)
    requires |file| >= HeaderSize
    ensures ReadHeader(prev, file) == DecodeHeader(file[..HeaderSize])
    ensures ReadHeader(prev, file).magic == file[..4] && ReadHeader(prev, file).version == file[4]
  {
    assert file[..Min(|file|, HeaderSize)] == file[..HeaderSize];
    OverlayFull(EncodeHeader(prev), file[..HeaderSize]);
    assert file[..HeaderSize][..4] == file[..4];
  }

  /** The bytes of record i that a read of `data` into the sample array delivers. */
  function Chunk(data: bytes, i: Minute): (r: bytes)
    ensures |r| <= SampleSize
  {
    var avail := Min(|data|, SamplesPerDay * SampleSize);
    data[Min(SampleSize * i, avail) .. Min(SampleSize * i + SampleSize, avail)]
  }

  /**
    The slots after `fread(samples, 12, 1440, f)` on the bytes following the
    header: records the file has replace their slot, the rest keep what they held.
   */
  function ReadSlots(prev: Slots, data: bytes): Slots
  {
    seq(SamplesPerDay, i requires 0 <= i < SamplesPerDay => Decode(Overlay(Encode(prev[i]), Chunk(data, i))))
  }

  /** A record wholly present in the file replaces its slot; a slot the file does not reach keeps its content. */
  lemma ReadSlotsAt(prev: Slots, data: bytes, i: Minute)
    ensures SampleSize * i + SampleSize <= |data| ==>
              ReadSlots(prev, data)[i] == Decode(data[SampleSize * i .. SampleSize * i + SampleSize])
    ensures SampleSize * i >= |data| ==> ReadSlots(prev, data)[i] == prev[i]
  {
    if SampleSize * i >= |data| {
      assert Chunk(data, i) == [];
      OverlayEmpty(Encode(prev[i]));
      DecodeEncode(prev[i]);
    }
  }

  /** Reading a complete image back yields exactly the records that were written. */
  lemma ReadSlotsOfImage(prev: Slots, ss: Slots)
    ensures ReadSlots(prev, EncodeSamples(ss)) == ss
  {
    forall i | 0 <= i < SamplesPerDay
      ensures ReadSlots(prev, EncodeSamples(ss))[i] == ss[i]
    {
      EncodeSamplesAt(ss, i);
      ReadSlotsAt(prev, EncodeSamples(ss), i);
      DecodeEncode(ss[i]);
    }
  }

  lemma ReadHeaderOfImage(prev: Header, h: Header, ss: Slots)
    ensures ReadHeader(prev, Image(h, ss)) == h
  {
    DecodeEncodeHeader(h);
  }

  /** A slot is retired: the readings go back to their sentinels; minute, bank and reserved stay. */
  function Retired(s: Sample): (r: Sample)
    ensures !IsValid(r)
    ensures r.humidity == HumNone && r.setpoint == TempNone && r.pressure == PressNone && r.flags == 0
    ensures r.minuteOfDay == s.minuteOfDay && r.activeBank == s.activeBank && r.reserved == s.reserved
  {
    s.(temperature := TempNone, humidity := HumNone, setpoint := TempNone, pressure := PressNone, flags := 0)
  }

  /** The first reconciliation loop: every valid slot after minute c is retired. */
  function RetireFuture(ss: Slots, c: Minute): (r: Slots)
    ensures forall i :: 0 <= i <= c ==> r[i] == ss[i]
    ensures forall i :: c < i < SamplesPerDay ==> !IsValid(r[i])
    ensures forall i :: c < i < SamplesPerDay ==> r[i] == if IsValid(ss[i]) then Retired(ss[i]) else ss[i]
  {
    seq(SamplesPerDay, i requires 0 <= i < SamplesPerDay =>
      if i > c && IsValid(ss[i]) then Retired(ss[i]) else ss[i])
  }

  predicate AnyValidAfter(ss: Slots, c: Minute)
  {
    exists i | c < i < SamplesPerDay :: IsValid(ss[i])
  }

  /** The third reconciliation loop: scan down from minute k for the latest valid slot. */
  function LastValidUpTo(ss: Slots, k: Minute): (r: Option<Minute>)
    ensures r.Some? ==> r.value <= k && IsValid(ss[r.value])
    ensures r.Some? ==> forall j :: r.value < j <= k ==> !IsValid(ss[j])
    ensures r.None? ==> forall j :: 0 <= j <= k ==> !IsValid(ss[j])
    decreases k
  {
    if IsValid(ss[k]) then Some(k)
    else if k == 0 then None
    else LastValidUpTo(ss, k - 1)
  }

  /** The second reconciliation loop: walk up to minute c, remembering one past the last valid slot. */
  function HighWaterScan(ss: Slots, c: Minute, i: nat, acc: nat): (r: nat)
    requires i <= c + 1 && acc <= i
    ensures r <= c + 1
    decreases c + 1 - i
  {
    if i > c then acc
    else HighWaterScan(ss, c, i + 1, if IsValid(ss[i]) then i + 1 else acc)
  }

  /** The upward scan and the downward scan agree: the mark is one past the latest valid slot, 0 if none. */
  lemma {:induction false} HighWaterScanIsLastValid(ss: Slots, c: Minute, i: nat, acc: nat)
    requires i <= c + 1 && acc <= i
    ensures HighWaterScan(ss, c, i, acc) ==
      match LastValidUpTo(ss, c)
      case Some(k) => if k >= i then k + 1 else acc
      case None => acc
    decreases c + 1 - i
  {
    if i <= c {
      HighWaterScanIsLastValid(ss, c, i + 1, if IsValid(ss[i]) then i + 1 else acc);
    }
  }

  /**
    Reconciliation after a load, against clock minute c: retires every valid
    slot after c, marks the buffer dirty when it retired any, and recomputes
    the high-water mark and the last written minute from what is left.
   */
  function Reconcile(b: Buffer, c: Minute): (r: Buffer)
    ensures forall i :: 0 <= i <= c ==> r.samples[i] == b.samples[i]
    ensures forall i :: c < i < SamplesPerDay ==>
              r.samples[i] == if IsValid(b.samples[i]) then Retired(b.samples[i]) else b.samples[i]
    ensures r.dirty <==> b.dirty || exists i :: c < i < SamplesPerDay && IsValid(b.samples[i])
    ensures
      || ((forall i :: 0 <= i <= c ==> !IsValid(r.samples[i]))
          && r.header.numSamples == 0 && r.currentMinute == 0)
      || (r.currentMinute <= c && IsValid(r.samples[r.currentMinute])
          && (forall i :: r.currentMinute < i <= c ==> !IsValid(r.samples[i]))
          && r.header.numSamples == r.currentMinute + 1)
    ensures r.header.numSamples <= c + 1
    ensures forall i :: 0 <= i < SamplesPerDay && IsValid(r.samples[i]) ==> i < r.header.numSamples
    ensures r.header == b.header.(numSamples := r.header.numSamples)
    ensures r.hasMemory == b.hasMemory && r.initialized == b.initialized
    ensures Consistent(r)
  {
    var ss := RetireFuture(b.samples, c);
    var last := LastValidUpTo(ss, c);
    HighWaterScanIsLastValid(ss, c, 0, 0);
    var num := HighWaterScan(ss, c, 0, 0);
    assert num == if last.Some? then last.value + 1 else 0;
    forall i | 0 <= i < SamplesPerDay && IsValid(ss[i])
      ensures i < num
    {
      if i <= c {
        assert last.Some? && i <= last.value;
      }
    }
    b.(samples := ss,
       dirty := b.dirty || AnyValidAfter(b.samples, c),
       header := b.header.(numSamples := num),
       currentMinute := if last.Some? then last.value else 0)
  }

  /**
    `history_load_from_file` for day d with the clock at minute c. A file that
    exists but does not open (`opens` is false) is reported like a missing one.
    The file's header is read into the buffer before its magic is checked, so a failed
    load can still have replaced the header; a version mismatch is only a
    warning; a short file is accepted and the slots it does not reach keep
    their previous content. The header date afterwards is the file's own.
   */
  function Load(b: Buffer, fs: Fs, d: Date, opens: bool, c: Minute): (r: Outcome)
    ensures !b.hasMemory ==> r == Outcome(b, InvalidState)
    ensures b.hasMemory && (FileName(d) !in fs || !opens) ==> r == Outcome(b, NotFound)
    ensures b.hasMemory && FileName(d) in fs && opens && |fs[FileName(d)]| < HeaderSize ==>
              r == Outcome(b.(header := ReadHeader(b.header, fs[FileName(d)])), Fail)
    ensures b.hasMemory && FileName(d) in fs && opens && |fs[FileName(d)]| >= HeaderSize
            && fs[FileName(d)][..4] != Magic ==>
              r == Outcome(b.(header := DecodeHeader(fs[FileName(d)][..HeaderSize])), InvalidVersion)
    ensures r.err == Ok <==> b.hasMemory && FileName(d) in fs && opens && |fs[FileName(d)]| >= HeaderSize
                             && fs[FileName(d)][..4] == Magic
    ensures r.err == Ok ==>
              var file := fs[FileName(d)];
              && r.buffer == Reconcile(b.(header := DecodeHeader(file[..HeaderSize]),
                                          samples := ReadSlots(b.samples, file[HeaderSize..]),
                                          dirty := false), c)
              && DateOf(r.buffer.header) == DateOf(DecodeHeader(file[..HeaderSize]))
              && r.buffer.header.version == file[4]
    ensures r.err != Ok ==> r.buffer.samples == b.samples && r.buffer.dirty == b.dirty
    ensures r.buffer.initialized == b.initialized && r.buffer.hasMemory == b.hasMemory
  {
    if !b.hasMemory then Outcome(b, InvalidState)
    else if FileName(d) !in fs || !opens then Outcome(b, NotFound)
    else
      var file := fs[FileName(d)];
      var hdr := ReadHeader(b.header, file);
      if |file| < HeaderSize then Outcome(b.(header := hdr), Fail)
      else
        FullHeaderRead(b.header, file);
        if hdr.magic != Magic then Outcome(b.(header := hdr), InvalidVersion)
        else
          var read := b.(header := hdr, samples := ReadSlots(b.samples, file[HeaderSize..]), dirty := false);
          var r := Reconcile(read, c);
          assert DateOf(r.header) == DateOf(hdr) && r.header.version == file[4];
          assert r.initialized == b.initialized && r.hasMemory == b.hasMemory;
          Outcome(r, Ok)
  }

  /**
    A load with memory reports NOT_FOUND exactly when the existence test says
    the day has no file or the file does not open; when it opens, NOT_FOUND
    means the same as the existence test.
   */
  lemma LoadNotFoundIffMissing(b: Buffer, fs: Fs, d: Date, opens: bool, c: Minute)
    ensures b.hasMemory ==> (Load(b, fs, d, opens, c).err == NotFound <==> !FileExists(fs, d) || !opens)
  {
    var r := Load(b, fs, d, opens, c);
    if b.hasMemory && FileName(d) in fs && opens {
      assert r.err in {Ok, Fail, InvalidVersion};
    }
  }

  /**
    Saving and then loading the same day, when the file opens, gives back the
    saved header and records, reconciled against the clock: slots up to minute c are the ones
    that were written.
   */
  lemma SaveThenLoad(b: Buffer, fs: Fs, dev: Device, reader: Buffer, c: Minute)
    requires Save(b, fs, dev).err == Ok && b.header.magic == Magic
    requires reader.hasMemory
    ensures var ld := Load(reader, Save(b, fs, dev).fs, DateOf(b.header), true, c);
            && ld.err == Ok
            && ld.buffer == Reconcile(reader.(header := b.header, samples := b.samples, dirty := false), c)
            && (forall i :: 0 <= i <= c ==> ld.buffer.samples[i] == b.samples[i])
            && DateOf(ld.buffer.header) == DateOf(b.header)
  {
    var fs' := Save(b, fs, dev).fs;
    assert fs'[FileName(DateOf(b.header))] == Image(b.header, b.samples);
    LoadOfImage(reader, fs', b.header, b.samples, c);
  }

  /** Loading a day file that holds the image of a header with the magic and its slots gives them back. */
  lemma LoadOfImage(reader: Buffer, fs: Fs, h: Header, ss: Slots, c: Minute)
    requires reader.hasMemory && h.magic == Magic
    requires FileName(DateOf(h)) in fs && fs[FileName(DateOf(h))] == Image(h, ss)
    ensures Load(reader, fs, DateOf(h), true, c)
              == Outcome(Reconcile(reader.(header := h, samples := ss, dirty := false), c), Ok)
  {
    var image := Image(h, ss);
    ImageParts(h, ss, image);
    LoadOfGoodFile(reader, fs, DateOf(h), c, image);
    ReadSlotsOfImage(reader.samples, ss);
  }

  /** A day file's image splits into a header that reads back with the magic and the encoded slots. */
  lemma ImageParts(h: Header, ss: Slots, image: bytes)
    requires h.magic == Magic && image == Image(h, ss)
    ensures |image| >= HeaderSize && image[..4] == Magic
    ensures DecodeHeader(image[..HeaderSize]) == h && image[HeaderSize..] == EncodeSamples(ss)
  {
    assert image[..HeaderSize] == EncodeHeader(h);
    DecodeEncodeHeader(h);
    assert image[..4] == image[..HeaderSize][..4];
  }

  /** A day file that opens, holds a whole header and starts with the magic loads without error. */
  lemma LoadOfGoodFile(b: Buffer, fs: Fs, d: Date, c: Minute, file: bytes)
    requires b.hasMemory && FileName(d) in fs && fs[FileName(d)] == file
    requires |file| >= HeaderSize && file[..4] == Magic
    ensures Load(b, fs, d, true, c)
              == Outcome(Reconcile(b.(header := DecodeHeader(file[..HeaderSize]),
                                      samples := ReadSlots(b.samples, file[HeaderSize..]),
                                      dirty := false), c), Ok)
  {
  }

  // ---------------------------------------------------------------------------
  // Day rollover
  // ---------------------------------------------------------------------------

  /**
    `history_check_day_change` with the clock showing `today`: when the buffer's
    date differs, the outgoing day is saved if it has unsaved writes (the save's
    result is ignored) and the buffer is reinitialised, empty, for `today`.
   */
  function CheckDayChange(b: Buffer, today: Date, fs: Fs, dev: Device): (r: DayChange)
    ensures r.changed <==> b.initialized && DateOf(b.header) != today
    ensures !r.changed ==> r.buffer == b && r.fs == fs
    ensures r.changed ==>
              && r.buffer.header == InitHeaderForDate(today)
              && (forall i :: 0 <= i < SamplesPerDay ==> r.buffer.samples[i] == Empty(i))
              && r.buffer.currentMinute == 0 && !r.buffer.dirty
              && r.buffer.initialized && r.buffer.hasMemory == b.hasMemory
    ensures r.changed && b.dirty && b.header.numSamples > 0 ==> r.fs == Save(b, fs, dev).fs
    ensures r.changed && b.hasMemory && b.dirty && b.header.numSamples > 0 && dev.opens && dev.capacity >= FileSize ==>
              r.fs == fs[FileName(DateOf(b.header)) := Image(b.header, b.samples)]
    ensures r.changed && !(b.dirty && b.header.numSamples > 0) ==> r.fs == fs
    ensures Consistent(b) ==> Consistent(r.buffer)
  {
    if !b.initialized || DateOf(b.header) == today then DayChange(b, fs, false)
    else
      var saved := if b.dirty && b.header.numSamples > 0 then Save(b, fs, dev) else SaveResult(b, fs, Ok);
      var reset := ClearSamples(saved.buffer.(header := InitHeaderForDate(today)));
      DayChange(reset, saved.fs, true)
  }

  /** Right after a day change every minute reads as not found. */
  lemma DayChangeLeavesEveryMinuteEmpty(b: Buffer, today: Date, fs: Fs, dev: Device, m: Minute)
    requires b.hasMemory
    requires CheckDayChange(b, today, fs, dev).changed
    ensures GetSample(CheckDayChange(b, today, fs, dev).buffer, m).err == NotFound
  {
  }

  /**
    `history_record` with already scaled readings: rollover first, then the
    sample is stored at the clock's minute with the relay and manual bits.
   */
  function Record(b: Buffer, today: Date, minute: Minute, fs: Fs, dev: Device,
                  temperature: i16, humidity: u8, pressure: u16, setpoint: i16,
                  relayOn: bool, manualMode: bool, activeBank: u8): (r: SaveResult)
    ensures b.initialized && b.hasMemory ==>
              && r.err == Ok
              && DateOf(r.buffer.header) == today
              && var s := r.buffer.samples[minute];
                 && s.minuteOfDay == minute && s.temperature == temperature
                 && s.humidity == humidity && s.pressure == pressure
                 && s.setpoint == setpoint && s.activeBank == activeBank && s.reserved == 0
                 && (HasFlag(s.flags, FlagRelayOn) <==> relayOn)
                 && (HasFlag(s.flags, FlagManualMode) <==> manualMode)
                 && !HasFlag(s.flags, FlagException)
    ensures b.initialized && b.hasMemory ==>
              var dc := CheckDayChange(b, today, fs, dev);
              && r.fs == dc.fs
              && r.buffer.header == dc.buffer.header.(numSamples := Max(dc.buffer.header.numSamples, minute + 1))
              && r.buffer.currentMinute == minute && r.buffer.dirty
              && (forall i :: 0 <= i < SamplesPerDay && i != minute ==> r.buffer.samples[i] == dc.buffer.samples[i])
    ensures b.initialized && !b.hasMemory ==> r.err == InvalidState
    ensures !b.initialized ==> r.err == InvalidState && r.buffer == b && r.fs == fs
  {
    var dc := CheckDayChange(b, today, fs, dev);
    var flags: u8 := (if relayOn then 1 else 0) + (if manualMode then 2 else 0);
    FlagBits(flags);
    var add := AddSample(dc.buffer, Sample(minute, temperature, humidity, flags, setpoint, activeBank, 0, pressure));
    SaveResult(add.buffer, dc.fs, add.err)
  }

  /**
    A recorded minute reads back with the recorded temperature. On the same
    day nothing else changes; across midnight the outgoing day is saved when
    it holds unsaved data, and every other minute of the new day reads as
    not found.
   */
  lemma RecordThenGet(b: Buffer, today: Date, minute: Minute, fs: Fs, dev: Device,
                      temperature: i16, humidity: u8, pressure: u16, setpoint: i16,
                      relayOn: bool, manualMode: bool, activeBank: u8)
    requires b.initialized && b.hasMemory
    ensures var r := Record(b, today, minute, fs, dev, temperature, humidity, pressure, setpoint,
                            relayOn, manualMode, activeBank);
            var got := GetSample(r.buffer, minute as u16);
            && got.sample.Some? && got.sample.value.temperature == temperature
            && (got.err == Ok <==> temperature != TempNone)
            && (DateOf(b.header) == today ==>
                  r.fs == fs && forall i :: 0 <= i < SamplesPerDay && i != minute ==> r.buffer.samples[i] == b.samples[i])
            && (DateOf(b.header) != today && b.dirty && b.header.numSamples > 0 ==> r.fs == Save(b, fs, dev).fs)
            && (DateOf(b.header) != today ==>
                  forall m: u16 :: m < SamplesPerDay && m != minute ==> GetSample(r.buffer, m).err == NotFound)
  {
    var r := Record(b, today, minute, fs, dev, temperature, humidity, pressure, setpoint,
                    relayOn, manualMode, activeBank);
    var dc := CheckDayChange(b, today, fs, dev);
    if DateOf(b.header) != today {
      forall m: u16 | m < SamplesPerDay && m != minute
        ensures GetSample(r.buffer, m).err == NotFound
      {
        assert r.buffer.samples[m] == dc.buffer.samples[m] == Empty(m);
      }
    }
  }

  // ---------------------------------------------------------------------------
  // Start-up and shutdown
  // ---------------------------------------------------------------------------

  /** The buffer before `history_init`: zero-initialised, nothing hasMemory. */
  function Unallocated(): (b: Buffer)
    ensures !b.hasMemory && !b.initialized && !b.dirty
  {
    Buffer(Header([0, 0, 0, 0], 0, 0, 0, 0, 0, 0), Cleared(), 0, false, false, false)
  }

  /**
    `history_init` as written: allocates the array (whose initial content is
    `memory`), tries to load today's file against clock minute c and, on any
    load failure, reinitialises the buffer for today.
   */
  function HistoryInit(b: Buffer, psramOk: bool, memory: Slots, fs: Fs, today: Date, opens: bool, c: Minute): (r: Outcome)
    ensures !psramOk ==> r == Outcome(b, NoMem)
    ensures psramOk ==> r.err == Ok && r.buffer.initialized && r.buffer.hasMemory && Consistent(r.buffer)
    ensures psramOk ==>
              var ld := Load(b.(samples := memory, hasMemory := true), fs, today, opens, c);
              && (ld.err == Ok ==> r.buffer == ld.buffer.(initialized := true))
              && (ld.err != Ok ==>
                    && r.buffer.header == InitHeaderForDate(today)
                    && (forall i :: 0 <= i < SamplesPerDay ==> r.buffer.samples[i] == Empty(i))
                    && !r.buffer.dirty && r.buffer.currentMinute == 0)
  {
    if !psramOk then Outcome(b, NoMem)
    else
      var ld := Load(b.(samples := memory, hasMemory := true), fs, today, opens, c);
      var ready := if ld.err == Ok then ld.buffer else ClearSamples(ld.buffer.(header := InitHeaderForDate(today)));
      Outcome(ready.(initialized := true), Ok)
  }

  /** All-zero PSRAM: every slot reads as minute 0 at 0.00 degrees. */
  function ZeroMemory(): (ss: Slots)
    ensures forall i :: 0 <= i < SamplesPerDay ==> IsValid(ss[i]) && ss[i].temperature == 0
  {
    seq(SamplesPerDay, i => Sample(0, 0, 0, 0, 0, 0, 0, 0))
  }

  /**
    At boot, a day file cut short after its header (a save interrupted by power
    loss leaves exactly this) makes every slot up to the clock minute keep what
    the freshly allocated memory held; with zeroed memory those slots read back
    as valid 0.00 degree samples that were never recorded, and the high-water
    mark moves to the clock minute.
   */
  lemma BootKeepsStaleMemory(today: Date, c: Minute, m: Minute)
    requires m <= c
    ensures var fs := map[FileName(today) := EncodeHeader(InitHeaderForDate(today))];
            var r := HistoryInit(Unallocated(), true, ZeroMemory(), fs, today, true, c).buffer;
            && IsValid(r.samples[m]) && r.samples[m].temperature == 0
            && r.header.numSamples == c + 1
  {
    var b := Unallocated().(samples := ZeroMemory(), hasMemory := true);
    var fs := map[FileName(today) := EncodeHeader(InitHeaderForDate(today))];
    HeaderImage(InitHeaderForDate(today));
    HeaderOnlyLoad(b, fs, today, c, InitHeaderForDate(today));
    var read := b.(header := InitHeaderForDate(today), samples := ReadSlots(b.samples, []), dirty := false);
    ReadSlotsAt(ZeroMemory(), [], m);
    ReadSlotsAt(ZeroMemory(), [], c);
    var r := Reconcile(read, c);
    assert r.samples[m] == read.samples[m] && r.samples[c] == read.samples[c];
    assert IsValid(r.samples[c]);
  }

  /** Loading a day file that holds only a header with the right magic reads every slot from memory, under that header. */
  lemma HeaderOnlyLoad(b: Buffer, fs: Fs, today: Date, c: Minute, h: Header)
    requires b.hasMemory && FileName(today) in fs
    requires var file := fs[FileName(today)];
             |file| == HeaderSize && file[..4] == Magic && DecodeHeader(file[..HeaderSize]) == h
    ensures Load(b, fs, today, true, c)
              == Outcome(Reconcile(b.(header := h, samples := ReadSlots(b.samples, []), dirty := false), c), Ok)
  {
    assert fs[FileName(today)][HeaderSize..] == [];
  }

  /** The bytes of a fresh header: exactly a header, with the magic first, that reads back as itself. */
  lemma HeaderImage(h: Header)
    requires h.magic == Magic
    ensures var file := EncodeHeader(h);
            |file| == HeaderSize && file[..4] == Magic && DecodeHeader(file[..HeaderSize]) == h
  {
    var file := EncodeHeader(h);
    DecodeEncodeHeader(h);
    assert file[..HeaderSize] == file;
  }

  /**
    `history_init` with the slots cleared before today's file is read: slots
    the file does not reach are empty rather than raw memory.
   */
  function HistoryInitCleared(b: Buffer, psramOk: bool, memory: Slots, fs: Fs, today: Date, opens: bool, c: Minute): (r: Outcome)
    ensures !psramOk ==> r == Outcome(b, NoMem)
    ensures psramOk ==> r.err == Ok && r.buffer.initialized && r.buffer.hasMemory && Consistent(r.buffer)
    ensures psramOk && FileName(today) in fs ==>
              forall i :: 0 <= i < SamplesPerDay && HeaderSize + SampleSize * i >= |fs[FileName(today)]| ==>
                !IsValid(r.buffer.samples[i])
    ensures psramOk && (FileName(today) !in fs || !opens) ==>
              r.buffer.header == InitHeaderForDate(today) && forall i :: 0 <= i < SamplesPerDay ==> !IsValid(r.buffer.samples[i])
  {
    if !psramOk then Outcome(b, NoMem)
    else
      var cleared := ClearSamples(b.(samples := memory, hasMemory := true));
      var ld := Load(cleared, fs, today, opens, c);
      var ready := if ld.err == Ok then ld.buffer else ClearSamples(ld.buffer.(header := InitHeaderForDate(today)));
      UnreadSlotsStayEmpty(cleared, fs, today, opens, c);
      Outcome(ready.(initialized := true), Ok)
  }

  lemma UnreadSlotsStayEmpty(cleared: Buffer, fs: Fs, today: Date, opens: bool, c: Minute)
    requires cleared.hasMemory
    requires forall i :: 0 <= i < SamplesPerDay ==> !IsValid(cleared.samples[i])
    ensures var ld := Load(cleared, fs, today, opens, c);
            ld.err == Ok ==>
              forall i :: 0 <= i < SamplesPerDay && HeaderSize + SampleSize * i >= |fs[FileName(today)]| ==>
                !IsValid(ld.buffer.samples[i])
  {
    var ld := Load(cleared, fs, today, opens, c);
    if ld.err == Ok {
      var file := fs[FileName(today)];
      var read := ReadSlots(cleared.samples, file[HeaderSize..]);
      var mid := cleared.(header := DecodeHeader(file[..HeaderSize]), samples := read, dirty := false);
      assert ld.buffer == Reconcile(mid, c);
      forall i: Minute | HeaderSize + SampleSize * i >= |file|
        ensures !IsValid(ld.buffer.samples[i])
      {
        ReadSlotsAt(cleared.samples, file[HeaderSize..], i);
        assert !IsValid(read[i]);
      }
    }
  }

  /**
    `history_deinit`: flushes unsaved data (ignoring the result) and releases
    the array; the buffer is no longer initialised.
   */
  function Deinit(b: Buffer, fs: Fs, dev: Device): (r: SaveResult)
    ensures !r.buffer.hasMemory && !r.buffer.initialized
    ensures b.hasMemory && b.dirty ==> r.fs == Save(b, fs, dev).fs
    ensures !(b.hasMemory && b.dirty) ==> r.fs == fs
    ensures r.err == Ok
  {
    if b.hasMemory then
      var saved := if b.dirty then Save(b, fs, dev) else SaveResult(b, fs, Ok);
      SaveResult(saved.buffer.(hasMemory := false, initialized := false), saved.fs, Ok)
    else SaveResult(b.(initialized := false), fs, Ok)
  }
}

/**
  The day-file reader behind the web UI (src/log_reader.cpp,
  include/log_reader.h): header check, record decoding, the JSON rendering of
  each record with sentinels as `null`, and the listing of day files.
  The HTTP response is a value here: the status and the body text.
 */
module LogReader {
  import opened Base
  import opened Text
  import opened Sample
  import opened HistoryFormat
  import History

  /** "TLOG" read as a little-endian 32-bit word. */
  const LogMagic: u32 := 0x474F4C54

  /** The reader's view of the 12-byte header: the magic as one word. */
  datatype LogHeader = LogHeader(
    magic: u32,
    version: u8,
    year: u16,
    month: u8,
    day: u8,
    numSamples: u16,
    reserved: u8)

  /** The fields of a record the JSON shows; bytes 8 and 9 (bank, reserved) are skipped. */
  datatype Row = Row(
    minuteOfDay: u16,
    temperature: i16,
    humidity: u8,
    flags: u8,
    setpoint: i16,
    pressure: u16)

  datatype Response = NotFound | ServerError(message: string) | Json(body: string)

  function ParseLogHeader(b: bytes): (h: LogHeader)
    requires |b| == HeaderSize
    ensures h.magic % 0x100 == b[0] && h.magic / 0x100_0000 == b[3]
    ensures h.version == b[4] && h.month == b[7] && h.day == b[8] && h.reserved == b[11]
    ensures h.year % 0x100 == b[5] && h.year / 0x100 == b[6]
    ensures h.numSamples % 0x100 == b[9] && h.numSamples / 0x100 == b[10]
  {
    LogHeader(U32Of(b[0], b[1], b[2], b[3]), b[4], U16Of(b[5], b[6]), b[7], b[8], U16Of(b[9], b[10]), b[11])
  }

  /**
    The reader's magic word is the writer's "TLOG" bytes read little-endian;
    read big-endian the same bytes give 0x544C4F47.
   */
  lemma LogMagicIsWriterMagic()
    ensures LogMagic == U32Of(Magic[0], Magic[1], Magic[2], Magic[3])
    ensures (Magic[0] as int) * 0x100_0000 + (Magic[1] as int) * 0x1_0000 + (Magic[2] as int) * 0x100 + Magic[3] == 0x544C4F47
  {
  }

  /** The word check accepts exactly the headers whose first four bytes are "TLOG". */
  lemma MagicCheckAgrees(b: bytes)
    requires |b| == HeaderSize
    ensures ParseLogHeader(b).magic == LogMagic <==> b[..4] == Magic
  {
    var m := ParseLogHeader(b).magic;
    if m == LogMagic {
      assert b[0] == 0x54 && b[1] == 0x4C && b[2] == 0x4F && b[3] == 0x47;
      assert b[..4] == Magic;
    }
  }

  /** Reading a header the history manager wrote gives back its fields. */
  lemma ReaderSeesWriterHeader(h: Header)
    ensures var lh := ParseLogHeader(EncodeHeader(h));
            && lh.version == h.version && lh.year == h.year && lh.month == h.month
            && lh.day == h.day && lh.numSamples == h.numSamples && lh.reserved == h.reserved
            && (lh.magic == LogMagic <==> h.magic == Magic)
  {
    var b := EncodeHeader(h);
    MagicCheckAgrees(b);
    assert b[..4] == h.magic;
  }

  /** The record decode of the handler: little-endian fields, the two signed ones via `int16_t`. */
  function DecodeRecord(r: bytes): (row: Row)
    requires |r| == SampleSize
    ensures row.minuteOfDay % 0x100 == r[0] && row.minuteOfDay / 0x100 == r[1]
    ensures AsU16(row.temperature) == U16Of(r[2], r[3]) && AsU16(row.setpoint) == U16Of(r[6], r[7])
    ensures row.humidity == r[4] && row.flags == r[5]
    ensures row.pressure % 0x100 == r[10] && row.pressure / 0x100 == r[11]
  {
    Row(U16Of(r[0], r[1]), AsI16(U16Of(r[2], r[3])), r[4], r[5], AsI16(U16Of(r[6], r[7])), U16Of(r[10], r[11]))
  }

  function RowOf(s: Sample): Row
  {
    Row(s.minuteOfDay, s.temperature, s.humidity, s.flags, s.setpoint, s.pressure)
  }

  /** The reader inverts the writer's record layout on every field it shows. */
  lemma DecodeRecordOfEncode(s: Sample)
    ensures DecodeRecord(Encode(s)) == RowOf(s)
  {
    DecodeEncode(s);
  }

  /** In a saved day file, the record after the header at position i reads back as slot i. */
  lemma SavedFileRecord(h: Header, ss: seq<Sample>, i: nat)
    requires |ss| == SamplesPerDay && i < SamplesPerDay
    ensures DecodeRecord(Image(h, ss)[HeaderSize..][SampleSize * i .. SampleSize * i + SampleSize]) == RowOf(ss[i])
  {
    var img := Image(h, ss);
    assert img[HeaderSize..][SampleSize * i .. SampleSize * i + SampleSize]
        == img[HeaderSize + SampleSize * i .. HeaderSize + SampleSize * i + SampleSize];
    ImageRecordAt(h, ss, i);
    EncodeSamplesAt(ss, i);
    assert img[HeaderSize..] == EncodeSamples(ss);
    DecodeEncode(ss[i]);
  }

  // ---------------------------------------------------------------------------
  // Field rendering
  // ---------------------------------------------------------------------------

  /**
    `%.2f` of a value in hundredths divided by 100: sign, integer part,
    point, two fraction digits.
   */
  function HundredthsText(v: int): string
  {
    var a := if v < 0 then -v else v;
    (if v < 0 then "-" else "") + Decimal(a / 100) + "." + Padded(a % 100, 2)
  }

  /** Reads "[-]digits.dd" back into hundredths. */
  function ParseHundredths(t: string): Option<int>
  {
    if |t| < 4 || t[|t| - 3] != '.' then None
    else
      var neg := t[0] == '-';
      var ip := t[(if neg then 1 else 0) .. |t| - 3];
      var fp := t[|t| - 2..];
      if |ip| == 0 || !AllDigits(ip) || !AllDigits(fp) then None
      else
        var a := ValueOf(ip) * 100 + ValueOf(fp);
        Some(if neg then -a else a)
  }

  /** The printed temperature denotes exactly the stored hundredths. */
  lemma HundredthsRoundTrip(v: int)
    ensures ParseHundredths(HundredthsText(v)) == Some(v)
  {
    var a := if v < 0 then -v else v;
    var sign := if v < 0 then "-" else "";
    var d := Decimal(a / 100);
    assert Pow10(2) == 100;
    PaddedWidth(a % 100, 2);
    var p := Padded(a % 100, 2);
    var t := sign + d + "." + p;
    assert HundredthsText(v) == t;
    assert ValueOf(d) * 100 + ValueOf(p) == a;
    ParseShape(sign, d, p, a, t);
    assert (if sign == "-" then -a else a) == v;
  }

  lemma ParseShape(sign: string, d: string, p: string, a: int, t: string)
    requires sign == "" || sign == "-"
    requires 1 <= |d| && AllDigits(d) && |p| == 2 && AllDigits(p)
    requires a == ValueOf(d) * 100 + ValueOf(p) && t == sign + d + "." + p
    ensures ParseHundredths(t) == Some(if sign == "-" then -a else a)
  {
    TextShape(sign, d, p, t);
    ParseFields(t, sign == "-", d, p, a);
  }

  /** Where the sign, the integer digits, the point and the two decimals sit in a printed temperature. */
  lemma TextShape(sign: string, d: string, p: string, t: string)
    requires sign == "" || sign == "-"
    requires 1 <= |d| && IsDigit(d[0]) && |p| == 2 && t == sign + d + "." + p
    ensures |t| >= 4 && t[|t| - 3] == '.' && t[|t| - 2..] == p
    ensures (t[0] == '-') == (sign == "-")
    ensures t[(if sign == "-" then 1 else 0) .. |t| - 3] == d
  {
    assert |t| == |sign| + |d| + 3;
    assert t[|sign|] == d[0];
    assert t[|sign| .. |t| - 3] == d;
  }

  /** The parser's reading of a text whose sign, integer and fraction parts are known. */
  lemma ParseFields(t: string, neg: bool, ip: string, fp: string, a: int)
    requires |t| >= 4 && t[|t| - 3] == '.' && (t[0] == '-') == neg
    requires ip == t[(if neg then 1 else 0) .. |t| - 3] && fp == t[|t| - 2..]
    requires 1 <= |ip| && AllDigits(ip) && AllDigits(fp)
    requires a == ValueOf(ip) * 100 + ValueOf(fp)
    ensures ParseHundredths(t) == Some(if neg then -a else a)
  {
  }

  function TempField(v: i16): string
  {
    if v == TempNone then "null" else HundredthsText(v)
  }

  function HumField(v: u8): string
  {
    if v == HumNone then "null" else Decimal(v)
  }

  function PressField(v: u16): string
  {
    if v == PressNone then "null" else Decimal(v)
  }

  /** Each field is `null` exactly for its sentinel; every other value is printed as a number. */
  lemma NullExactlyForSentinels(t: i16, h: u8, p: u16)
    ensures TempField(t) == "null" <==> t == TempNone
    ensures HumField(h) == "null" <==> h == HumNone
    ensures PressField(p) == "null" <==> p == PressNone
    ensures t != TempNone ==> ParseHundredths(TempField(t)) == Some(t)
    ensures h != HumNone ==> AllDigits(HumField(h)) && ValueOf(HumField(h)) == h
    ensures p != PressNone ==> AllDigits(PressField(p)) && ValueOf(PressField(p)) == p
  {
    if t != TempNone {
      HundredthsRoundTrip(t);
      var txt := HundredthsText(t);
      assert txt[0] == '-' || IsDigit(txt[0]);
    }
    if h != HumNone {
      assert IsDigit(Decimal(h)[0]);
    }
    if p != PressNone {
      assert IsDigit(Decimal(p)[0]);
    }
  }

  /** The heater state shown: bit 0 of the flags. */
  function Heat(flags: u8): (r: nat)
    ensures r == 0 || r == 1
    ensures r == flags % 2
    ensures r == 1 <==> HasFlag(flags, FlagRelayOn)
  {
    FlagBits(flags);
    BitAnd(flags, 1)
  }

  /** The "HH:MM" label: hour and minute recombine to the minute of the day. */
  function ClockLabel(m: u16): (r: string)
    ensures |r| >= 5
    ensures var hh := r[..|r| - 3];
            && r[|r| - 3] == ':' && AllDigits(hh) && AllDigits(r[|r| - 2..])
            && ValueOf(r[|r| - 2..]) < 60
            && ValueOf(hh) * 60 + ValueOf(r[|r| - 2..]) == m
  {
    assert Pow10(2) == 100;
    PaddedWidth(m % 60, 2);
    var hh := Padded(m / 60, 2);
    var mm := Padded(m % 60, 2);
    var r := hh + ":" + mm;
    assert r[..|r| - 3] == hh;
    assert r[|r| - 2..] == mm;
    r
  }

  /**
    The record's readings as the handler prints them after its time: the
    temperature comes first and the pressure last.
   */
  function RowFields(row: Row): (r: string)
    ensures var t, p := TempField(row.temperature), PressField(row.pressure);
            && |r| >= 16 + |t| + |p|
            && r[..7] == "\"temp\":" && r[7..7 + |t|] == t
            && r[|r| - |p| - 9..] == ",\"press\":" + p
  {
    var t, p := TempField(row.temperature), PressField(row.pressure);
    var mid := InnerFields(row);
    LabelledEnds("\"temp\":", t, mid, ",\"press\":", p);
    "\"temp\":" + t + mid + (",\"press\":" + p)
  }

  /** The fields between the temperature and the pressure, each after its comma. */
  function InnerFields(row: Row): string
  {
    ",\"hum\":" + HumField(row.humidity)
    + ",\"heat\":" + Decimal(Heat(row.flags))
    + ",\"setpoint\":" + TempField(row.setpoint)
  }

  /** Where the first and the last labelled value sit in a run of fields. */
  lemma LabelledEnds(k1: string, t: string, mid: string, k2: string, p: string)
    ensures var r := k1 + t + mid + (k2 + p);
            && |r| == |k1| + |t| + |mid| + |k2| + |p|
            && r[..|k1|] == k1 && r[|k1|..|k1| + |t|] == t
            && r[|r| - |p| - |k2|..] == k2 + p
  {
    var r := k1 + t + mid + (k2 + p);
    assert r[..|k1| + |t|] == k1 + t;
    assert r[|r| - |p| - |k2|..] == k2 + p;
  }

  /** One record as the handler prints it. */
  function RowJson(row: Row): (r: string)
    ensures var clock := ClockLabel(row.minuteOfDay);
            && |r| > 7 + |clock|
            && r[..6] == "{\"t\":\"" && r[6..6 + |clock|] == clock && r[6 + |clock|] == '"'
            && r[|r| - 1] == '}'
  {
    var open := "{\"t\":\"";
    var clock := ClockLabel(row.minuteOfDay);
    var close := "\"," + RowFields(row) + "}";
    Framed(open, clock, close);
    open + clock + close
  }

  /** A text between an opening part and a closing part can be cut back out of the whole. */
  lemma Framed(open: string, mid: string, close: string)
    requires |close| >= 2
    ensures var r := open + mid + close;
            && |r| == |open| + |mid| + |close|
            && r[..|open|] == open && r[|open|..|open| + |mid|] == mid
            && r[|open| + |mid|] == close[0] && r[|r| - 1] == close[|close| - 1]
  {
    PartsOf3(open, mid, close);
  }

  /**
    The items in order, each after a comma except the first: the shape of the
    handlers' loops, which print "," before every item once `first` is false.
   */
  function Joined(items: seq<string>): string
  {
    if |items| == 0 then ""
    else Joined(items[..|items| - 1]) + (if |items| == 1 then "" else ",") + items[|items| - 1]
  }

  /** Every item preceded by a comma. */
  function CommaEach(items: seq<string>): string
  {
    if |items| == 0 then "" else "," + items[0] + CommaEach(items[1..])
  }

  /** Read from the front: the first item carries no comma, and a comma precedes every later one. */
  lemma {:induction false} JoinedCons(item: string, rest: seq<string>)
    ensures Joined([item] + rest) == item + CommaEach(rest)
    decreases |rest|
  {
    if |rest| == 0 {
      assert [item] + rest == [item];
      assert Joined([item]) == Joined([]) + "" + item;
    } else {
      var all := [item] + rest;
      var init := rest[..|rest| - 1];
      var last := rest[|rest| - 1];
      assert all[..|all| - 1] == [item] + init;
      assert all[|all| - 1] == last;
      JoinedCons(item, init);
      CommaEachSnoc(rest);
      calc {
        Joined(all);
        Joined([item] + init) + "," + last;
        item + CommaEach(init) + "," + last;
        item + (CommaEach(init) + "," + last);
        item + CommaEach(rest);
      }
    }
  }

  lemma {:induction false} CommaEachSnoc(items: seq<string>)
    requires |items| > 0
    ensures CommaEach(items) == CommaEach(items[..|items| - 1]) + "," + items[|items| - 1]
  {
    var last := items[|items| - 1];
    if |items| == 1 {
      assert items[..0] == [];
      assert items[1..] == [];
      assert CommaEach(items) == "," + items[0] + CommaEach([]);
    } else {
      var init := items[..|items| - 1];
      CommaEachSnoc(items[1..]);
      assert items[1..][..|items[1..]| - 1] == init[1..];
      assert items[1..][|items[1..]| - 1] == last;
      assert init[0] == items[0];
      calc {
        CommaEach(items);
        "," + items[0] + CommaEach(items[1..]);
        "," + items[0] + (CommaEach(init[1..]) + "," + last);
        ("," + init[0] + CommaEach(init[1..])) + "," + last;
        CommaEach(init) + "," + last;
      }
    }
  }

  function RowsJson(rows: seq<Row>): (r: seq<string>)
    ensures |r| == |rows| && forall k :: 0 <= k < |rows| ==> r[k] == RowJson(rows[k])
  {
    seq(|rows|, k requires 0 <= k < |rows| => RowJson(rows[k]))
  }

  /** The metadata the body opens with: the header's date, its sample count, and the start of the array. */
  function Meta(h: LogHeader): (r: string)
    ensures |r| > 8 && r[..8] == "\"date\":\"" && r[|r| - 1] == '['
    ensures var tail := "\",\"samples\":" + Decimal(h.numSamples) + ",\"data\":[";
            |r| >= 8 + |tail| && r[|r| - |tail|..] == tail
    ensures h.year < 10000 && h.month < 100 && h.day < 100 ==>
              && |r| >= 18 && r[12] == '-' && r[15] == '-'
              && r[8..12] + r[13..15] + r[16..18] == History.DateDigits(Date(h.year, h.month, h.day))
  {
    var y, m, d := Padded(h.year, 4), Padded(h.month, 2), Padded(h.day, 2);
    var open := "\"date\":\"";
    var date := y + "-" + m + "-" + d;
    var close := MetaCount(h.numSamples);
    var r := open + date + close;
    assert |open| == 8 && r[..8] == open && r[8..8 + |date|] == date by {
      PartsOf3(open, date, close);
    }
    assert r[|r| - 1] == close[|close| - 1] == '[';
    assert r[|r| - |close|..] == close;
    if h.year < 10000 && h.month < 100 && h.day < 100 then
      assert |y| == 4 && |m| == 2 && |d| == 2 by {
        assert Pow10(2) == 100 && Pow10(4) == 10000;
        PaddedWidth(h.year, 4);
        PaddedWidth(h.month, 2);
        PaddedWidth(h.day, 2);
      }
      DateSlots(open, y, m, d, close);
      r
    else r
  }

  /** Where the fields of a dashed date sit after an 8-character prefix. */
  lemma DateSlots(open: string, y: string, m: string, d: string, close: string)
    requires |open| == 8 && |y| == 4 && |m| == 2 && |d| == 2
    ensures var r := open + (y + "-" + m + "-" + d) + close;
            && r[8..12] == y && r[12] == '-' && r[13..15] == m && r[15] == '-' && r[16..18] == d
  {
    var r := open + (y + "-" + m + "-" + d) + close;
    assert forall k :: 0 <= k < 4 ==> r[8 + k] == y[k];
    assert forall k :: 0 <= k < 2 ==> r[13 + k] == m[k] && r[16 + k] == d[k];
  }

  /** The rest of the metadata: the sample count and the start of the array. */
  function MetaCount(n: u16): (r: string)
    ensures |r| > 0 && r[|r| - 1] == '['
  {
    "\",\"samples\":" + Decimal(n) + ",\"data\":["
  }

  /** The path the handler opens for a `date` query value. */
  function LogPath(date: string): (r: string)
    ensures |r| == |date| + 16 && r[..12] == "/spiffs/log_" && r[12..|r| - 4] == date && r[|r| - 4..] == ".bin"
  {
    "/spiffs/log_" + date + ".bin"
  }

  /** Different dates name different files. */
  lemma LogPathInjective(a: string, b: string)
    requires LogPath(a) == LogPath(b)
    ensures a == b
  {
    assert a == LogPath(a)[12..|LogPath(a)| - 4];
  }

  /** The date the handler uses when the query has none. */
  const DefaultDate := "20251221"

  /** The size of the handler's `date_str` buffer, terminator included. */
  const DateBufSize := 16

  /**
    What the handler gets from the request line: no query at all, a query it
    could not copy out, or a query in which the `date` key was looked up
    (`None` when the key is missing).
   */
  datatype DateQuery = NoQuery | Unreadable | Query(value: Option<string>)

  /**
    The date the handler settles on. A copied-out value must fit the buffer;
    a longer one makes the lookup fail, and a failed lookup or an empty query
    gives the default. A query that cannot be copied leaves the buffer empty.
   */
  function QueryDate(q: DateQuery): (d: string)
    ensures |d| < DateBufSize
    ensures q.Unreadable? ==> d == ""
    ensures q.Query? && q.value.Some? && |q.value.value| < DateBufSize ==> d == q.value.value
    ensures q.NoQuery? || (q.Query? && (q.value.None? || |q.value.value| >= DateBufSize)) ==> d == DefaultDate
  {
    match q
    case NoQuery => DefaultDate
    case Unreadable => ""
    case Query(v) =>
      if v.Some? && |v.value| < DateBufSize then v.value else DefaultDate
  }

  /** For the zero-padded YYYYMMDD of a day, the reader opens the file the history manager writes. */
  lemma LogPathIsHistoryFile(d: Date)
    ensures LogPath(History.DateDigits(d)) == History.FileName(d)
  {
  }

  /**
    The record loop: reads up to `num` records from the bytes after the header,
    stopping at the first incomplete one.
   */
  method ReadRecords(data: bytes, num: u16) returns (rows: seq<Row>)
    ensures |rows| == Min(num, |data| / SampleSize)
    ensures forall k :: 0 <= k < |rows| ==> rows[k] == DecodeRecord(data[SampleSize * k .. SampleSize * k + SampleSize])
  {
    rows := [];
    var i := 0;
    while i < num
      invariant 0 <= i <= num && |rows| == i && SampleSize * i <= |data|
      invariant forall k :: 0 <= k < i ==> rows[k] == DecodeRecord(data[SampleSize * k .. SampleSize * k + SampleSize])
    {
      if SampleSize * i + SampleSize > |data| {
        break;
      }
      rows := rows + [DecodeRecord(data[SampleSize * i .. SampleSize * i + SampleSize])];
      i := i + 1;
    }
  }

  /**
    What `log_data_handler` answers for the file at `path`: 404 when the file
    is missing, an error when it exists but `fopen` fails (`opens` is false),
    when the header is short or when its magic is wrong, otherwise the JSON
    body with the records the loop read.
   */
  ghost predicate Served(fs: map<string, bytes>, opens: bool, path: string, resp: Response, rows: seq<Row>)
  {
    && (path !in fs ==> resp == NotFound && rows == [])
    && (path in fs && !opens ==> resp == ServerError("Cannot open log file") && rows == [])
    && (path in fs && opens && |fs[path]| < HeaderSize ==> resp == ServerError("Invalid log file") && rows == [])
    && (path in fs && opens && |fs[path]| >= HeaderSize && fs[path][..4] != Magic ==>
          resp == ServerError("Invalid log format") && rows == [])
    && (resp.Json? <==> path in fs && opens && |fs[path]| >= HeaderSize && fs[path][..4] == Magic)
    && (resp.Json? ==>
          var file := fs[path];
          var h := ParseLogHeader(file[..HeaderSize]);
          && |rows| == Min(h.numSamples, (|file| - HeaderSize) / SampleSize)
          && (forall k :: 0 <= k < |rows| ==>
                rows[k] == DecodeRecord(file[HeaderSize + SampleSize * k .. HeaderSize + SampleSize * k + SampleSize]))
          && resp.body == "{" + Meta(h) + Joined(RowsJson(rows)) + "]}")
  }

  /** The part of `log_data_handler` after the path is built. */
  method ServeLog(fs: map<string, bytes>, opens: bool, path: string) returns (resp: Response, rows: seq<Row>)
    ensures Served(fs, opens, path, resp, rows)
  {
    rows := [];
    if path !in fs {
      return NotFound, rows;
    }
    if !opens {
      return ServerError("Cannot open log file"), rows;
    }
    var file := fs[path];
    if |file| < HeaderSize {
      return ServerError("Invalid log file"), rows;
    }
    var h := ParseLogHeader(file[..HeaderSize]);
    MagicCheckAgrees(file[..HeaderSize]);
    assert file[..HeaderSize][..4] == file[..4];
    if h.magic != LogMagic {
      return ServerError("Invalid log format"), rows;
    }
    var data := file[HeaderSize..];
    rows := ReadRecords(data, h.numSamples);
    forall k | 0 <= k < |rows|
      ensures data[SampleSize * k .. SampleSize * k + SampleSize]
           == file[HeaderSize + SampleSize * k .. HeaderSize + SampleSize * k + SampleSize]
    {
    }
    resp := Json("{" + Meta(h) + Joined(RowsJson(rows)) + "]}");
  }

  /** `log_data_handler`: the date from the request's `query` picks the file that is served. */
  method LogData(fs: map<string, bytes>, opens: bool, query: DateQuery) returns (resp: Response, rows: seq<Row>)
    ensures Served(fs, opens, LogPath(QueryDate(query)), resp, rows)
  {
    resp, rows := ServeLog(fs, opens, LogPath(QueryDate(query)));
  }

  // ---------------------------------------------------------------------------
  // Listing
  // ---------------------------------------------------------------------------

  /** The listing keeps a name that starts with "log_" and has ".bin" anywhere in it. */
  predicate IsLogName(name: string)
  {
    |name| >= 4 && name[..4] == "log_" && Contains(name, ".bin")
  }

  /** `strncpy` of at most 8 characters after the prefix. */
  function DateOfName(name: string): (r: string)
    requires |name| >= 4
    ensures |r| == Min(|name|, 12) - 4
    ensures forall k :: 0 <= k < |r| ==> r[k] == name[4 + k]
  {
    name[4..Min(|name|, 12)]
  }

  /** The dates the listing emits, in directory order. */
  function ListedDates(names: seq<string>): (r: seq<string>)
    ensures |r| <= |names|
    ensures forall d :: d in r <==> exists n :: n in names && IsLogName(n) && DateOfName(n) == d
  {
    if |names| == 0 then []
    else
      var rest := ListedDates(names[1..]);
      assert forall n :: n in names <==> n == names[0] || n in names[1..];
      if IsLogName(names[0]) then [DateOfName(names[0])] + rest else rest
  }

  function Quoted(items: seq<string>): (r: seq<string>)
    ensures |r| == |items| && forall k :: 0 <= k < |items| ==> r[k] == "\"" + items[k] + "\""
  {
    seq(|items|, k requires 0 <= k < |items| => "\"" + items[k] + "\"")
  }

  /**
    `log_list_handler`: a JSON array of dates; an unreadable directory gives
    `[]`, and every entry the filter keeps appears as a quoted date.
   */
  function ListBody(dir: Option<seq<string>>): (r: string)
    ensures dir.None? ==> r == "[]"
    ensures |r| >= 2 && r[0] == '[' && r[|r| - 1] == ']'
    ensures dir.Some? ==>
              forall n :: n in dir.value && IsLogName(n) ==> Contains(r, "\"" + DateOfName(n) + "\"")
    ensures dir.Some? ==> r == "[" + Joined(Quoted(ListedDates(dir.value))) + "]"
  {
    match dir
    case None => "[]"
    case Some(names) =>
      var dates := ListedDates(names);
      var items := Quoted(dates);
      var r := "[" + Joined(items) + "]";
      forall n | n in names && IsLogName(n)
        ensures Contains(r, "\"" + DateOfName(n) + "\"")
      {
        assert DateOfName(n) in dates;
        var k :| 0 <= k < |dates| && dates[k] == DateOfName(n);
        JoinedContains(items, k);
        ContainsWithin(Joined(items), items[k], "[", "]");
      }
      r
  }

  /** Every item occurs in the joined text. */
  lemma {:induction false} JoinedContains(items: seq<string>, k: nat)
    requires k < |items|
    ensures Contains(Joined(items), items[k])
    decreases |items|
  {
    var n := |items| - 1;
    var pre := Joined(items[..n]);
    var sep := if n == 0 then "" else ",";
    var all := Joined(items);
    assert all == pre + sep + items[n];
    if k == n {
      assert all[|pre + sep| .. |pre + sep| + |items[n]|] == items[n];
      assert OccursAt(all, items[n], |pre + sep|);
    } else {
      JoinedContains(items[..n], k);
      assert items[..n][k] == items[k];
      ContainsWithin(pre, items[k], "", sep + items[n]);
      assert "" + pre + (sep + items[n]) == all;
    }
  }

  /** The name of every saved day file is listed under its zero-padded date. */
  lemma SavedNameListed(d: Date)
    requires d.year < 10000 && d.month < 100 && d.day < 100
    ensures var name := "log_" + History.DateDigits(d) + ".bin";
            IsLogName(name) && DateOfName(name) == History.DateDigits(d)
  {
    History.DateDigitsLayout(d);
    NameParts(History.DateDigits(d));
  }

  /** The pieces of a name built around eight characters. */
  lemma NameParts(s: string)
    requires |s| == 8
    ensures var name := "log_" + s + ".bin";
            name[..4] == "log_" && OccursAt(name, ".bin", 12) && name[4..12] == s
  {
  }

  /** The filter is looser than the pattern: a backup copy is listed, with a date that is not one. */
  lemma LooseNameFilter()
    ensures IsLogName("log_x.bin.bak") && DateOfName("log_x.bin.bak") == "x.bin.ba"
  {
    var n := "log_x.bin.bak";
    assert OccursAt(n, ".bin", 5);
    assert n[..4] == "log_";
  }
}

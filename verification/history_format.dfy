/**
  The daily log file (include/history_manager.h): a 12-byte dated header
  followed by 1440 fixed 12-byte records, record i at offset 12 + 12*i.
 */
module HistoryFormat {
  import opened Base
  import opened Sample

  const HeaderSize := 12
  const FileSize := HeaderSize + SamplesPerDay * SampleSize
  const Version: u8 := 1
  /** "TLOG" in ASCII. */
  const Magic: seq<u8> := [0x54, 0x4C, 0x4F, 0x47]

  type Magic4 = s: seq<u8> | |s| == 4 witness [0, 0, 0, 0]

  datatype Date = Date(year: u16, month: u8, day: u8)

  /** The packed file header. `numSamples` is a write high-water mark, not a count of valid slots. */
  datatype Header = Header(
    magic: Magic4,
    version: u8,
    year: u16,
    month: u8,
    day: u8,
    numSamples: u16,
    reserved: u8)

  function DateOf(h: Header): Date { Date(h.year, h.month, h.day) }

  lemma FileSizeValue()
    ensures FileSize == 17292
  {
  }

  function EncodeHeader(h: Header): (r: bytes)
    ensures |r| == HeaderSize
  {
    h.magic + [h.version] + U16Bytes(h.year) + [h.month, h.day] + U16Bytes(h.numSamples) + [h.reserved]
  }

  function DecodeHeader(b: bytes): (h: Header)
    requires |b| == HeaderSize
    ensures h.magic == b[..4] && h.version == b[4]
    ensures h.year % 0x100 == b[5] && h.year / 0x100 == b[6]
    ensures h.month == b[7] && h.day == b[8]
    ensures h.numSamples % 0x100 == b[9] && h.numSamples / 0x100 == b[10]
    ensures h.reserved == b[11]
  {
    Header(b[..4], b[4], U16Of(b[5], b[6]), b[7], b[8], U16Of(b[9], b[10]), b[11])
  }

  lemma DecodeEncodeHeader(h: Header)
    ensures DecodeHeader(EncodeHeader(h)) == h
  {
    var b := EncodeHeader(h);
    assert b[..4] == h.magic;
  }

  lemma EncodeDecodeHeader(b: bytes)
    requires |b| == HeaderSize
    ensures EncodeHeader(DecodeHeader(b)) == b
  {
  }

  /** The records of a day, concatenated in index order. */
  function EncodeSamples(ss: seq<Sample>): (r: bytes)
    ensures |r| == SampleSize * |ss|
  {
    if |ss| == 0 then [] else Encode(ss[0]) + EncodeSamples(ss[1..])
  }

  /** A slice lying wholly in the second part of a concatenation. */
  lemma SliceAfter(a: bytes, b: bytes, k: nat, m: nat)
    requires k + m <= |b|
    ensures (a + b)[|a| + k .. |a| + k + m] == b[k .. k + m]
  {
  }

  /** Record i sits at bytes [12*i, 12*i + 12) of the concatenation: O(1) seek by minute. */
  lemma {:induction false} EncodeSamplesAt(ss: seq<Sample>, i: nat)
    requires i < |ss|
    ensures EncodeSamples(ss)[SampleSize * i .. SampleSize * i + SampleSize] == Encode(ss[i])
  {
    if i > 0 {
      EncodeSamplesAt(ss[1..], i - 1);
      var head, tail := Encode(ss[0]), EncodeSamples(ss[1..]);
      var k := SampleSize * (i - 1);
      assert |head| == SampleSize && SampleSize * i == SampleSize + k;
      assert EncodeSamples(ss) == head + tail;
      SliceAfter(head, tail, k, SampleSize);
    }
  }

  /** The whole file as the firmware writes it. */
  function Image(h: Header, ss: seq<Sample>): (r: bytes)
    requires |ss| == SamplesPerDay
    ensures |r| == FileSize
    ensures r[..HeaderSize] == EncodeHeader(h)
  {
    EncodeHeader(h) + EncodeSamples(ss)
  }

  /** In a written file, record i is found at offset 12 + 12*i and unpacks to slot i. */
  lemma ImageRecordAt(h: Header, ss: seq<Sample>, i: nat)
    requires |ss| == SamplesPerDay && i < SamplesPerDay
    ensures Decode(Image(h, ss)[HeaderSize + SampleSize * i .. HeaderSize + SampleSize * i + SampleSize]) == ss[i]
  {
    EncodeSamplesAt(ss, i);
    assert Image(h, ss)[HeaderSize + SampleSize * i .. HeaderSize + SampleSize * i + SampleSize]
        == EncodeSamples(ss)[SampleSize * i .. SampleSize * i + SampleSize];
    DecodeEncode(ss[i]);
  }
}

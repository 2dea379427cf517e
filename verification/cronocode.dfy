/**
  The state logic of the thermostat's web page (data/cronocode.js): the
  correction and hysteresis counters, the signed display of the
  correction, the text encoding of the 230-value program sent to the
  device and its parsing back, the copy of one of the four 50-slot
  threshold banks in and out of the editor, and the zoom range of the
  chart. Canvas, DOM and websocket calls are left to the page.
 */
module Cronocode {
  import opened Base
  import opened Text

  /** The program array: four banks of 50 thresholds, then the control fields 200..229. */
  const ProgramLength := 230
  const BankCount := 4
  const BankSize := 50
  const Correction := 203
  const Hysteresis := 214

  // ---------------------------------------------------------------------------
  // Counters
  // ---------------------------------------------------------------------------

  /** `correzionepiu`: one step up on the byte read as signed, stopping at +127. */
  function CorrectionUp(v: u8): (r: u8)
    ensures AsI8(r) == Min(AsI8(v) + 1, 127)
  {
    if v == 255 then 0
    else if v == 127 then v
    else v + 1
  }

  /** `correzionemeno`: one step down on the byte read as signed, stopping at -128. */
  function CorrectionDown(v: u8): (r: u8)
    ensures AsI8(r) == Max(AsI8(v) - 1, -128)
  {
    if v == 0 then 255
    else if v == 128 then v
    else v - 1
  }

  /** Away from the limits the two correction buttons undo each other. */
  lemma CorrectionStepsCancel(v: u8)
    ensures AsI8(v) != 127 ==> CorrectionDown(CorrectionUp(v)) == v
    ensures AsI8(v) != -128 ==> CorrectionUp(CorrectionDown(v)) == v
  {
  }

  /** `isteresipiu`: up by one, stopping at 255. */
  function HysteresisUp(v: u8): (r: u8)
    ensures v < 255 ==> r == v + 1
    ensures v == 255 ==> r == v
  {
    if v == 255 then v else v + 1
  }

  /** `isteresimeno`: down by one, stopping at 0. */
  function HysteresisDown(v: u8): (r: u8)
    ensures v > 0 ==> r == v - 1
    ensures v == 0 ==> r == v
  {
    if v == 0 then v else v - 1
  }

  lemma HysteresisStepsCancel(v: u8)
    ensures v < 255 ==> HysteresisDown(HysteresisUp(v)) == v
    ensures v > 0 ==> HysteresisUp(HysteresisDown(v)) == v
  {
  }

  /** The correction as shown: a sign and a magnitude in tenths of a degree. */
  datatype Signed = Signed(sign: char, tenths: nat)

  /** `consegno`: "+" and the byte below 128, else "-" and its distance to 256. */
  function Consegno(v: u8): (r: Signed)
    ensures r.sign == '+' <==> v < 128
    ensures r.sign == '+' || r.sign == '-'
    ensures AsI8(v) == if r.sign == '+' then r.tenths else 0 - r.tenths
  {
    if v < 128 then Signed('+', v) else Signed('-', 256 - v)
  }

  /** The display tells the byte back: two different corrections never show alike. */
  lemma ConsegnoInjective(a: u8, b: u8)
    requires Consegno(a) == Consegno(b)
    ensures a == b
  {
    assert AsI8(a) == AsI8(b);
  }

  // ---------------------------------------------------------------------------
  // Program text
  // ---------------------------------------------------------------------------

  /** `String(v)` of an integer in JavaScript. */
  function JsString(v: int): (r: string)
    ensures 1 <= |r|
  {
    if v >= 0 then Decimal(v) else "-" + Decimal(-v)
  }

  /** `s.padStart(3, '0')`: zeros in front up to three characters, never truncated. */
  function Pad3(s: string): (r: string)
    ensures |r| >= 3
    ensures |s| >= 3 ==> r == s
    ensures |s| < 3 ==> |r| == 3 && r[3 - |s|..] == s
  {
    if |s| >= 3 then s else Zeros(3 - |s|) + s
  }

  /** For 0..999 the padded text is the three-digit zero-padded decimal. */
  lemma Pad3OfValue(v: int)
    requires 0 <= v <= 999
    ensures Pad3(JsString(v)) == Padded(v, 3)
    ensures |Padded(v, 3)| == 3 && AllDigits(Padded(v, 3)) && ValueOf(Padded(v, 3)) == v
  {
    assert Pow10(3) == 1000;
    PaddedWidth(v, 3);
  }

  /** Character k of the program file holds a digit of a program value. */
  predicate DigitSlot(k: int)
  {
    4 <= k < 4 * ProgramLength + 4 && (k - 4) % 4 < 3
  }

  /** Character k of the file once the values are written in. */
  function EncodedChar(prog: seq<int>, file: string, k: nat): char
    requires |prog| == ProgramLength && k < |file|
  {
    if DigitSlot(k) then Pad3(JsString(prog[(k - 4) / 4]))[(k - 4) % 4] else file[k]
  }

  /** The file after the values are written in; every other character is kept. */
  function Encoded(prog: seq<int>, file: string): (r: string)
    requires |prog| == ProgramLength && |file| >= 4 * ProgramLength + 4
    ensures |r| == |file|
    ensures forall k | 0 <= k < |file| :: r[k] == EncodedChar(prog, file, k)
  {
    seq(|file|, k requires 0 <= k < |file| => EncodedChar(prog, file, k))
  }

  /** The digit slots of value j are the three characters 4j+4, 4j+5 and 4j+6. */
  lemma SlotsOfValue(k: int, j: int)
    requires 0 <= j < ProgramLength
    ensures DigitSlot(k) && (k - 4) / 4 == j <==> 4 * j + 4 <= k <= 4 * j + 6
    ensures 4 * j + 4 <= k <= 4 * j + 6 ==> (k - 4) % 4 == k - 4 * j - 4
  {
  }

  /** Character 4j+7, after the three digits of value j, is a separator slot. */
  lemma SeparatorSlot(j: int)
    requires 0 <= j
    ensures !DigitSlot(4 * j + 7) && (4 * j + 7) % 4 == 3
  {
    assert 4 * j + 7 == 4 * (j + 1) + 3;
    assert 4 * j + 3 == 4 * j + 3;
  }

  /**
    `inviasettaggi`, the value part: program value j goes, as a three-character
    zero-padded decimal, into characters 4j+4..4j+6 of the file; the copy kept
    for restoring is the file without its first two characters.
   */
  method SendSettings(prog: seq<int>, file: string) returns (out: string, copy: string)
    requires |prog| == ProgramLength && |file| >= 4 * ProgramLength + 4
    ensures out == Encoded(prog, file)
    ensures copy == out[2..]
  {
    out := file;
    var j := 0;
    while j < ProgramLength
      invariant 0 <= j <= ProgramLength
      invariant |out| == |file|
      invariant forall k | 0 <= k < |out| ::
                  out[k] == if DigitSlot(k) && (k - 4) / 4 < j then EncodedChar(prog, file, k) else file[k]
    {
      var text := Pad3(JsString(prog[j]));
      ghost var before := out;
      out := out[4 * j + 4 := text[0]][4 * j + 5 := text[1]][4 * j + 6 := text[2]];
      forall k | 0 <= k < |out|
        ensures out[k] == if DigitSlot(k) && (k - 4) / 4 < j + 1 then EncodedChar(prog, file, k) else file[k]
      {
        SlotsOfValue(k, j);
        if 4 * j + 4 <= k <= 4 * j + 6 {
          assert out[k] == text[k - 4 * j - 4];
        } else {
          assert out[k] == before[k];
        }
      }
      j := j + 1;
    }
    copy := out[2..];
  }

  /** The digits a string starts with. */
  function LeadingDigits(s: string): (r: string)
    ensures |r| <= |s| && r == s[..|r|] && AllDigits(r)
    ensures |r| < |s| ==> !IsDigit(s[|r|])
  {
    if |s| == 0 || !IsDigit(s[0]) then []
    else [s[0]] + LeadingDigits(s[1..])
  }

  /** A run of digits ended by a non-digit is exactly what `LeadingDigits` takes. */
  lemma {:induction false} LeadingDigitsStop(s: string, n: nat)
    requires n < |s| && AllDigits(s[..n]) && !IsDigit(s[n])
    ensures LeadingDigits(s) == s[..n]
  {
    if n > 0 {
      assert s[1..][..n - 1] == s[1..n];
      LeadingDigitsStop(s[1..], n - 1);
    }
  }

  /**
    `parseInt(s, 10)`: an optional sign and the digits after it; no digit
    gives `None` (NaN).
   */
  function ParseInt(s: string): (r: Option<int>)
    ensures |s| == 0 ==> r.None?
    ensures |s| > 0 && IsDigit(s[0]) ==> r.Some? && r.value >= 0
    ensures |s| > 0 && !IsDigit(s[0]) && s[0] != '-' && s[0] != '+' ==> r.None?
  {
    var neg := |s| > 0 && s[0] == '-';
    var rest := if |s| > 0 && (s[0] == '-' || s[0] == '+') then s[1..] else s;
    var d := LeadingDigits(rest);
    if |d| == 0 then None
    else
      Some(if neg then 0 - ValueOf(d) else ValueOf(d))
  }

  /** `copy.slice(k)` in JavaScript: empty past the end. */
  function From(s: string, k: nat): (r: string)
    ensures k <= |s| ==> r == s[k..]
    ensures k > |s| ==> r == []
  {
    if k <= |s| then s[k..] else []
  }

  /** `ripristinaprogramma`: value i is parsed from the copy at 2 + 4i. */
  function Restore(copy: string): (r: seq<Option<int>>)
    ensures |r| == ProgramLength
  {
    seq(ProgramLength, i requires 0 <= i < ProgramLength => ParseInt(From(copy, 2 + 4 * i)))
  }

  /** Every value separator of the file is a non-digit. */
  predicate Separated(file: string)
  {
    forall k | 7 <= k < |file| && k < 4 * ProgramLength + 4 && k % 4 == 3 :: !IsDigit(file[k])
  }

  predicate ThreeDigitValues(prog: seq<int>)
  {
    forall j | 0 <= j < |prog| :: 0 <= prog[j] <= 999
  }

  /** In the encoded file, value i is three digits followed by its separator. */
  lemma EncodedValueText(prog: seq<int>, file: string, i: nat)
    requires |prog| == ProgramLength && |file| >= 4 * ProgramLength + 4
    requires ThreeDigitValues(prog) && Separated(file) && i < ProgramLength
    ensures Encoded(prog, file)[4 * i + 4..4 * i + 7] == Padded(prog[i], 3)
    ensures !IsDigit(Encoded(prog, file)[4 * i + 7])
  {
    assert 0 <= prog[i] <= 999;
    EncodedDigits(prog, file, i);
    EncodedSeparator(prog, file, i);
  }

  /** The three digit slots of value i hold its zero-padded text. */
  lemma EncodedDigits(prog: seq<int>, file: string, i: nat)
    requires |prog| == ProgramLength && |file| >= 4 * ProgramLength + 4
    requires i < ProgramLength && 0 <= prog[i] <= 999
    ensures Encoded(prog, file)[4 * i + 4..4 * i + 7] == Padded(prog[i], 3)
  {
    var out := Encoded(prog, file)[4 * i + 4..4 * i + 7];
    var p := Pad3(JsString(prog[i]));
    forall d | 0 <= d < 3
      ensures out[d] == p[d]
    {
      EncodedDigitAt(prog, file, i, d);
    }
    assert out == p[..3];
    Pad3OfValue(prog[i]);
  }

  /** Digit d of value i sits at 4i+4+d. */
  lemma EncodedDigitAt(prog: seq<int>, file: string, i: nat, d: nat)
    requires |prog| == ProgramLength && |file| >= 4 * ProgramLength + 4
    requires i < ProgramLength && d < 3
    ensures Encoded(prog, file)[4 * i + 4 + d] == Pad3(JsString(prog[i]))[d]
  {
    QuarterOf(i, d);
    assert Encoded(prog, file)[4 * i + 4 + d] == EncodedChar(prog, file, 4 * i + 4 + d);
  }

  /** The slot after value i keeps the file's own separator. */
  lemma EncodedSeparator(prog: seq<int>, file: string, i: nat)
    requires |prog| == ProgramLength && |file| >= 4 * ProgramLength + 4
    requires Separated(file) && i < ProgramLength
    ensures !IsDigit(Encoded(prog, file)[4 * i + 7])
  {
    SeparatorSlot(i);
    assert Encoded(prog, file)[4 * i + 7] == file[4 * i + 7];
  }

  /** Character 4i+4+d, for d below 4, is digit d of value i. */
  lemma QuarterOf(i: int, d: int)
    requires 0 <= d < 4
    ensures (4 * i + 4 + d - 4) / 4 == i && (4 * i + 4 + d - 4) % 4 == d
  {
    assert 4 * i + 4 + d - 4 == 4 * i + d;
  }

  /** Three digits of a value, then a non-digit, parse back to the value. */
  lemma ParseThreeDigits(s: string, v: int)
    requires 0 <= v <= 999 && |s| >= 4
    requires s[..3] == Padded(v, 3) && !IsDigit(s[3])
    ensures ParseInt(s) == Some(v)
  {
    Pad3OfValue(v);
    ParseDigitRun(s, Padded(v, 3), v);
  }

  /** A run of digits ended by a non-digit parses to the run's value. */
  lemma ParseDigitRun(s: string, t: string, v: int)
    requires 1 <= |t| < |s| && AllDigits(t) && ValueOf(t) == v
    requires s[..|t|] == t && !IsDigit(s[|t|])
    ensures ParseInt(s) == Some(v)
  {
    assert s[0] == t[0] && IsDigit(t[0]);
    LeadingDigitsStop(s, |t|);
  }

  /** One value of the round trip: the text at 4i+4 parses back to value i. */
  lemma {:induction false} RestoreOne(prog: seq<int>, file: string, i: nat)
    requires |prog| == ProgramLength && |file| >= 4 * ProgramLength + 4
    requires ThreeDigitValues(prog) && Separated(file) && i < ProgramLength
    ensures ParseInt(From(Encoded(prog, file)[2..], 2 + 4 * i)) == Some(prog[i])
  {
    var out := Encoded(prog, file);
    var s := From(out[2..], 2 + 4 * i);
    assert s == out[4 * i + 4..];
    EncodedValueText(prog, file, i);
    assert s[..3] == out[4 * i + 4..4 * i + 7];
    assert s[3] == out[4 * i + 7];
    ParseThreeDigits(s, prog[i]);
  }

  /**
    The encoding round trip: for program values 0..999 and a file whose
    separators are in place, restoring from the copy gives every value back.
   */
  lemma RestoreAfterSend(prog: seq<int>, file: string)
    requires |prog| == ProgramLength && |file| >= 4 * ProgramLength + 4
    requires ThreeDigitValues(prog) && Separated(file)
    ensures forall i | 0 <= i < ProgramLength :: Restore(Encoded(prog, file)[2..])[i] == Some(prog[i])
  {
    forall i | 0 <= i < ProgramLength
      ensures Restore(Encoded(prog, file)[2..])[i] == Some(prog[i])
    {
      RestoreOne(prog, file, i);
    }
  }

  /** A negative value does not survive: -5 is sent as "0-5" and read back as 0. */
  lemma NegativeValueLost()
    ensures Pad3(JsString(-5)) == "0-5"
    ensures ParseInt("0-5,") == Some(0)
  {
    assert JsString(-5) == "-5";
    assert Zeros(1) == "0";
    LeadingDigitsStop("0-5,", 1);
    assert "0-5,"[..1] == "0";
    assert ValueOf("0") == 10 * ValueOf("") + DigitValue('0');
  }

  // ---------------------------------------------------------------------------
  // Banks
  // ---------------------------------------------------------------------------

  /** Slot i of bank b lives at 50b + i, before the control fields. */
  lemma BankLayout(b: int, i: int, b2: int, i2: int)
    requires 0 <= b < BankCount && 0 <= i < BankSize && 0 <= b2 < BankCount && 0 <= i2 < BankSize
    ensures 0 <= BankSize * b + i < BankSize * BankCount == 200
    ensures BankSize * b + i == BankSize * b2 + i2 ==> b == b2 && i == i2
  {
  }

  /** The page state the bank editor works on. */
  datatype Editor = Editor(
    programma: seq<int>,
    posizioni: seq<int>,
    backup: seq<int>,
    shown: int,
    pending: bool,
    saveTarget: int,
    file: string,
    copy: string)

  predicate Shaped(e: Editor)
  {
    && |e.programma| == ProgramLength
    && |e.posizioni| == BankSize && |e.backup| == BankSize
    && 0 <= e.saveTarget < BankCount
    && |e.file| >= 4 * ProgramLength + 4
  }

  /**
    `visualizzaprogramma`: refused while edits are pending; otherwise bank b
    is copied into the editor and its backup.
   */
  function ShowBank(e: Editor, b: int): (r: Editor)
    requires Shaped(e) && 0 <= b < BankCount
    ensures Shaped(r)
    ensures e.pending ==> r == e
    ensures !e.pending ==> r.posizioni == r.backup == e.programma[BankSize * b..BankSize * (b + 1)]
    ensures !e.pending ==> r.shown == b && r.(posizioni := e.posizioni, backup := e.backup, shown := e.shown) == e
  {
    if e.pending then e
    else
      var bank := e.programma[BankSize * b..BankSize * (b + 1)];
      e.(shown := b, posizioni := bank, backup := bank)
  }

  /**
    `salvasettaggi`: the edited thresholds replace bank `saveTarget`, the
    program is sent, and the saved bank is shown again.
   */
  function SaveBank(e: Editor): (r: Editor)
    requires Shaped(e)
    ensures Shaped(r) && !r.pending && r.shown == e.saveTarget && r.saveTarget == e.saveTarget
    ensures r.posizioni == e.posizioni && r.backup == e.posizioni
    ensures r.programma[BankSize * e.saveTarget..BankSize * (e.saveTarget + 1)] == e.posizioni
    ensures forall k | 0 <= k < ProgramLength && !(BankSize * e.saveTarget <= k < BankSize * (e.saveTarget + 1)) ::
              r.programma[k] == e.programma[k]
    ensures r.file == Encoded(r.programma, e.file) && r.copy == r.file[2..]
  {
    var t := e.saveTarget;
    var programma := e.programma[..BankSize * t] + e.posizioni + e.programma[BankSize * (t + 1)..];
    var file := Encoded(programma, e.file);
    var saved := e.(pending := false, programma := programma, backup := e.posizioni, file := file, copy := file[2..]);
    ShowBank(saved, t)
  }

  /**
    Saving then showing a bank gives the edited thresholds for the saved
    bank and the old ones for any other bank; the control fields are kept.
   */
  lemma SaveThenShow(e: Editor, b: int)
    requires Shaped(e) && 0 <= b < BankCount
    ensures ShowBank(SaveBank(e), b).posizioni ==
              if b == e.saveTarget then e.posizioni else e.programma[BankSize * b..BankSize * (b + 1)]
    ensures SaveBank(e).programma[200..] == e.programma[200..]
  {
    var r := SaveBank(e);
    if b != e.saveTarget {
      forall k | BankSize * b <= k < BankSize * (b + 1)
        ensures r.programma[k] == e.programma[k]
      {
        assert !(BankSize * e.saveTarget <= k < BankSize * (e.saveTarget + 1));
      }
    }
  }

  /** After a save, restoring from the kept copy gives the saved program back. */
  lemma RestoreAfterSave(e: Editor)
    requires Shaped(e) && ThreeDigitValues(e.programma) && ThreeDigitValues(e.posizioni) && Separated(e.file)
    ensures forall i | 0 <= i < ProgramLength :: Restore(SaveBank(e).copy)[i] == Some(SaveBank(e).programma[i])
  {
    var r := SaveBank(e);
    assert ThreeDigitValues(r.programma) by {
      forall k | 0 <= k < ProgramLength
        ensures 0 <= r.programma[k] <= 999
      {
        if BankSize * e.saveTarget <= k < BankSize * (e.saveTarget + 1) {
          assert r.programma[k] == e.posizioni[k - BankSize * e.saveTarget];
        }
      }
    }
    RestoreAfterSend(r.programma, e.file);
  }

  // ---------------------------------------------------------------------------
  // Chart zoom
  // ---------------------------------------------------------------------------

  /** The chart's temperature range, in tenths of a degree. */
  datatype Zoom = Zoom(minTemp: int, maxTemp: int)

  function Range(z: Zoom): int { z.maxTemp - z.minTemp }

  /** The page's starting range: 12.0 to 22.0 degrees. */
  const InitialZoom := Zoom(120, 220)

  /**
    The mouse's height `y` on a chart `h` pixels tall, compared with the
    fifths the page uses. The page divides by 5 exactly; multiplying both
    sides by 5 gives the same comparisons on integers.
   */
  predicate InTopFifth(y: int, h: int) { 5 * y < h }
  predicate InBottomFifth(y: int, h: int) { 5 * y > 4 * h }
  predicate AboveBottomFifth(y: int, h: int) { 5 * y < 4 * h }

  /**
    `cronowheel`: scrolling forward narrows the range from the top or the
    bottom while it is wider than 4 degrees, otherwise moves it up;
    scrolling back widens it at the top (below 50 degrees) or lowers the
    bottom while it is above 0, moving the top with it when the mouse is
    above the bottom fifth. The two directions test the lower boundary
    differently: on the row 4h/5 itself a forward step moves the range and
    a backward step lowers only the bottom.
   */
  function Wheel(z: Zoom, forward: bool, y: int, h: int): (r: Zoom)
    ensures Range(r) == Range(z) - 10 ==> Range(z) > 40
    ensures Range(r) in {Range(z) - 10, Range(z), Range(z) + 10}
    ensures r.maxTemp > z.maxTemp && r.minTemp == z.minTemp ==> z.maxTemp < 500
    ensures r.minTemp < z.minTemp ==> z.minTemp > 0
    ensures forward && Range(z) > 40 && InTopFifth(y, h) ==> r == z.(maxTemp := z.maxTemp - 10)
    ensures !forward && InTopFifth(y, h) ==> r.minTemp == z.minTemp
    ensures !forward && !InTopFifth(y, h) ==> r.maxTemp <= z.maxTemp
  {
    if forward then
      if Range(z) > 40 && InTopFifth(y, h) then z.(maxTemp := z.maxTemp - 10)
      else if Range(z) > 40 && InBottomFifth(y, h) then z.(minTemp := z.minTemp + 10)
      else Zoom(z.minTemp + 10, z.maxTemp + 10)
    else if InTopFifth(y, h) then
      if z.maxTemp < 500 then z.(maxTemp := z.maxTemp + 10) else z
    else if z.minTemp > 0 then
      if AboveBottomFifth(y, h) then Zoom(z.minTemp - 10, z.maxTemp - 10) else z.(minTemp := z.minTemp - 10)
    else z
  }

  /**
    On the row at four fifths of the chart a forward step of a wide range
    moves both ends up, while a backward step above 0 lowers only the bottom.
   */
  lemma WheelBoundaryRow(z: Zoom, h: int)
    requires h % 5 == 0
    ensures Range(z) > 40 && h > 0 ==> Wheel(z, true, 4 * h / 5, h) == Zoom(z.minTemp + 10, z.maxTemp + 10)
    ensures z.minTemp > 0 && h > 0 ==> Wheel(z, false, 4 * h / 5, h) == z.(minTemp := z.minTemp - 10)
  {
  }

  /** The range is a whole number of degrees, at least 4, above 0. */
  predicate ZoomOk(z: Zoom)
  {
    z.minTemp % 10 == 0 && z.maxTemp % 10 == 0 && Range(z) >= 40 && z.minTemp >= 0
  }

  lemma WheelKeepsZoomOk(z: Zoom, forward: bool, y: int, h: int)
    requires ZoomOk(z)
    ensures ZoomOk(Wheel(z, forward, y, h))
  {
  }

  /** A wheel event: the direction, the mouse's height and the chart's height. */
  datatype WheelEvent = WheelEvent(forward: bool, y: int, h: int)

  /** The range after a sequence of wheel events. */
  function Wheels(z: Zoom, events: seq<WheelEvent>): Zoom
    decreases |events|
  {
    if |events| == 0 then z
    else Wheels(Wheel(z, events[0].forward, events[0].y, events[0].h), events[1..])
  }

  /** From the starting range, no sequence of wheel events makes the range narrower than 4 degrees. */
  lemma {:induction false} WheelsKeepZoomOk(z: Zoom, events: seq<WheelEvent>)
    requires ZoomOk(z)
    ensures ZoomOk(Wheels(z, events))
    decreases |events|
  {
    if |events| > 0 {
      var e := events[0];
      WheelKeepsZoomOk(z, e.forward, e.y, e.h);
      WheelsKeepZoomOk(Wheel(z, e.forward, e.y, e.h), events[1..]);
    }
  }

  lemma InitialZoomOk()
    ensures ZoomOk(InitialZoom)
  {
  }
}

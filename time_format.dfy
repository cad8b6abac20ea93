/** `formatTime(ms)` of the sliding puzzles (05-fifteen/src/main.js and its
    placeholder 04-fifteen/src/main.js, which carries the same function): a
    millisecond count rendered as `MM:SS.t`. */
module TimeFormat {
  import opened Js
  import opened RowMajor

  /** The minutes, seconds and tenths that `formatTime` prints. */
  datatype Clock = Clock(mins: nat, secs: nat, tenths: nat)

  /** `Math.max(0, Math.floor(ms))`. */
  function Total(ms: real): (total: nat)
    ensures ms >= 0.0 ==> total == ms.Floor
    ensures ms < 0.0 ==> total == 0
  {
    if ms.Floor < 0 then 0 else ms.Floor
  }

  /** The fields `formatTime` derives from the clamped total. */
  function Fields(ms: real): (k: Clock)
    ensures k.tenths <= 9 && k.secs <= 59
    ensures k.mins * 60000 + k.secs * 1000 + k.tenths * 100 + Total(ms) % 100 == Total(ms)
  {
    var total := Total(ms);
    var tenths := (total % 1000) / 100;
    var secs := (total / 1000) % 60;
    var mins := total / 60000;
    Decompose(total);
    Clock(mins, secs, tenths)
  }

  lemma Decompose(total: nat)
    ensures (total % 1000) / 100 <= 9 && (total / 1000) % 60 <= 59
    ensures (total / 60000) * 60000 + ((total / 1000) % 60) * 1000
            + ((total % 1000) / 100) * 100 + total % 100 == total
  {
    var q, y := total / 1000, total % 1000;
    var c := 1000 * (q % 60) + y;
    assert total == (q / 60) * 60000 + c;
    DivModOfIndex(60000, q / 60, c);
    var t := 10 * q + y / 100;
    assert total == t * 100 + y % 100;
    DivModOfIndex(100, t, y % 100);
  }

  /** `formatTime(ms)`. */
  function FormatTime(ms: real): string
  {
    var k := Fields(ms);
    PadZero(Decimal(k.mins), 2) + ":" + PadZero(Decimal(k.secs), 2) + "." + Decimal(k.tenths)
  }

  /** Reads the three fields back from a string of the form `MM:SS.t`. */
  function ParseClock(s: string): Clock
    requires |s| >= 7 && IsDigits(s[..|s| - 5]) && IsDigits(s[|s| - 4..|s| - 2]) && IsDigits(s[|s| - 1..])
  {
    Clock(DigitsValue(s[..|s| - 5]), DigitsValue(s[|s| - 4..|s| - 2]), DigitsValue(s[|s| - 1..]))
  }

  /** Where the pieces of `m + ":" + ss + "." + t` sit. */
  lemma Layout(m: string, ss: string, t: string)
    requires |ss| == 2 && |t| == 1
    ensures var s := m + ":" + ss + "." + t;
            |s| == |m| + 5 && s[|s| - 5] == ':' && s[|s| - 2] == '.'
            && s[..|s| - 5] == m && s[|s| - 4..|s| - 2] == ss && s[|s| - 1..] == t
  {
  }

  /** The output has the shape `MM:SS.t`: at least two minute digits (`padStart`
      pads and never truncates), a colon, two second digits, a dot and one tenths
      digit, and reading the fields back gives the minutes, seconds and tenths. */
  lemma FormatTimeShape(ms: real)
    ensures var s := FormatTime(ms);
            && |s| >= 7 && s[|s| - 5] == ':' && s[|s| - 2] == '.'
            && IsDigits(s[..|s| - 5]) && IsDigits(s[|s| - 4..|s| - 2]) && IsDigits(s[|s| - 1..])
            && ParseClock(s) == Fields(ms)
  {
    var k := Fields(ms);
    var m := PadZero(Decimal(k.mins), 2);
    var ss := PadZero(Decimal(k.secs), 2);
    var t := Decimal(k.tenths);
    TwoDigits(k.secs);
    assert |ss| == 2 && |t| == 1;
    var s := FormatTime(ms);
    assert s == m + ":" + ss + "." + t;
    Layout(m, ss, t);
    PaddedDecimalValue(k.mins, 2);
    PaddedDecimalValue(k.secs, 2);
    DecimalRoundTrip(k.tenths);
    assert s[..|s| - 5] == m && s[|s| - 4..|s| - 2] == ss && s[|s| - 1..] == t;
    assert IsDigits(m) && IsDigits(ss) && IsDigits(t);
    assert ParseClock(s) == Clock(DigitsValue(m), DigitsValue(ss), DigitsValue(t));
  }

  /** A negative input is clamped to zero. */
  lemma NegativeIsZero(ms: real)
    requires ms < 0.0
    ensures FormatTime(ms) == "00:00.0"
  {
    assert Fields(ms) == Clock(0, 0, 0);
    assert Decimal(0) == "0";
    assert PadZero("0", 2) == "00";
  }
}

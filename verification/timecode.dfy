/** SRT timestamps `HH:MM:SS,mmm` and running totals. */
module Timecode {
  import opened Numeric
  import opened Text

  /** `int(seconds // 3600)`. */
  function Hours(x: real): int {
    (x / 3600.0).Floor
  }

  /** `int((seconds % 3600) // 60)`: the minutes within the hour. */
  function Minutes(x: real): (m: int)
    ensures 0 <= m <= 59
  {
    (PyMod(x, 3600.0) / 60.0).Floor
  }

  /** `int(seconds % 60)`: the whole seconds within the minute. */
  function Seconds(x: real): (s: int)
    ensures 0 <= s <= 59
  {
    Trunc(PyMod(x, 60.0))
  }

  /** `int(round((seconds - int(seconds)) * 1000))`: the fraction in
      milliseconds, rounded half to even.  A fraction of 0.9995 or more rounds
      up to 1000, so the field can have four digits. */
  function Millis(x: real): (ms: int)
    ensures x >= 0.0 ==> 0 <= ms <= 1000
    ensures x <= 0.0 ==> -1000 <= ms <= 0
  {
    RoundHalfEven((x - Trunc(x) as real) * 1000.0)
  }

  /** `seconds_to_srt_timestamp`. */
  function SrtTimestamp(x: real): string {
    Clock(PyFormatInt(Hours(x), 2), PyFormatInt(Minutes(x), 2), PyFormatInt(Seconds(x), 2),
          PyFormatInt(Millis(x), 3))
  }

  /** The layout `HH:MM:SS,mmm` of the four fields. */
  function Clock(hh: string, mm: string, ss: string, ms: string): string {
    hh + ":" + mm + ":" + ss + "," + ms
  }

  lemma ClockOnOneLine(hh: string, mm: string, ss: string, ms: string)
    requires '\n' !in hh && '\n' !in mm && '\n' !in ss && '\n' !in ms
    ensures '\n' !in Clock(hh, mm, ss, ms)
  {
  }

  /** The hour, minute and second fields always add up to the whole seconds. */
  lemma ClockFieldsSum(x: real)
    ensures Hours(x) * 3600 + Minutes(x) * 60 + Seconds(x) == x.Floor
  {
    var f := x.Floor;
    var h := Hours(x);
    FloorDiv(x, 3600);
    assert h == f / 3600;
    var y := PyMod(x, 3600.0);
    assert y == x - (3600 * h) as real;
    assert y.Floor == f - 3600 * h;
    FloorDiv(y, 60);
    assert Minutes(x) == (f - 3600 * h) / 60;
    FloorDiv(x, 60);
    var z := PyMod(x, 60.0);
    assert z == x - (60 * (f / 60)) as real;
    assert Seconds(x) == f - 60 * (f / 60);
    var r := f % 3600;
    assert f == 3600 * h + r;
    assert f / 60 == 60 * h + r / 60;
  }

  /** A fraction of 0.9996 s is written as 1000 milliseconds. */
  lemma MillisCanReachThousand()
    ensures Millis(0.9996) == 1000
    ensures SrtTimestamp(0.9996) == Clock("00", "00", "00", "1000")
  {
    FieldsOfAlmostOneSecond();
    ClockOfThousandMillis();
  }

  lemma ClockOfThousandMillis()
    ensures PyFormatInt(0, 2) == "00" && PyFormatInt(1000, 3) == "1000"
  {
    assert PyFormatInt(0, 2) == "00" by {
      assert NatToDecimal(0) == "0";
      assert Repeat('0', 1) == "0";
    }
    assert PyFormatInt(1000, 3) == "1000" by {
      ThousandDigits();
    }
  }

  lemma FieldsOfAlmostOneSecond()
    ensures Hours(0.9996) == 0 && Minutes(0.9996) == 0 && Seconds(0.9996) == 0
    ensures Millis(0.9996) == 1000
  {
    assert Trunc(0.9996) == 0;
    assert RoundHalfEven(999.6) == 1000;
  }

  lemma ThousandDigits()
    ensures NatToDecimal(1000) == "1000"
  {
    assert NatToDecimal(1) == "1";
    assert NatToDecimal(10) == "10";
    assert NatToDecimal(100) == "100";
  }

  /** For non-negative times the timestamp reads back: two-digit minutes and
      seconds, at least two hour digits, three or four millisecond digits, and
      the fields give back the whole seconds and the milliseconds. */
  lemma {:induction false} TimestampFields(x: real) returns (hh: string, mm: string, ss: string, ms: string)
    requires x >= 0.0
    ensures SrtTimestamp(x) == hh + ":" + mm + ":" + ss + "," + ms
    ensures AllDigits(hh) && AllDigits(mm) && AllDigits(ss) && AllDigits(ms)
    ensures |hh| >= 2 && |mm| == 2 && |ss| == 2 && 3 <= |ms| <= 4
    ensures DecimalValue(hh) * 3600 + DecimalValue(mm) * 60 + DecimalValue(ss) == x.Floor
    ensures DecimalValue(ms) == Millis(x) && 0 <= Millis(x) <= 1000
  {
    assert Hours(x) >= 0;
    hh, mm, ss, ms := PyFormatInt(Hours(x), 2), PyFormatInt(Minutes(x), 2),
                      PyFormatInt(Seconds(x), 2), PyFormatInt(Millis(x), 3);
    PyFormatIntNat(Hours(x), 2);
    PyFormatIntNat(Minutes(x), 2);
    PyFormatIntNat(Seconds(x), 2);
    PyFormatIntNat(Millis(x), 3);
    assert Pow10(2) == 100 && Pow10(3) == 1000 && Pow10(4) == 10000;
    PyFormatIntWidth(Minutes(x), 2);
    PyFormatIntWidth(Seconds(x), 2);
    if Millis(x) < 1000 {
      PyFormatIntWidth(Millis(x), 3);
    } else {
      DecimalLength(Millis(x), 4);
    }
    ClockFieldsSum(x);
  }

  /** A timestamp has no line break, so it stays on its line. */
  lemma TimestampOnOneLine(x: real)
    ensures '\n' !in SrtTimestamp(x)
  {
    PyFormatIntChars(Hours(x), 2);
    PyFormatIntChars(Minutes(x), 2);
    PyFormatIntChars(Seconds(x), 2);
    PyFormatIntChars(Millis(x), 3);
    ClockOnOneLine(PyFormatInt(Hours(x), 2), PyFormatInt(Minutes(x), 2), PyFormatInt(Seconds(x), 2),
                   PyFormatInt(Millis(x), 3));
  }

  // ---------------------------------------------------------------------------
  // Running totals

  function Sum(v: seq<real>): real {
    if |v| == 0 then 0.0 else Sum(v[..|v| - 1]) + v[|v| - 1]
  }

  /** `cumulative_sum`: element `i` is the sum of the first `i + 1` values. */
  method CumulativeSum(values: seq<real>) returns (r: seq<real>)
    ensures |r| == |values|
    ensures forall i :: 0 <= i < |r| ==> r[i] == Sum(values[..i + 1])
    ensures |r| > 0 ==> r[0] == values[0]
    ensures forall i :: 0 < i < |r| ==> r[i] == r[i - 1] + values[i]
    ensures (forall i :: 0 <= i < |values| ==> values[i] >= 0.0) ==>
              forall i, j :: 0 <= i <= j < |r| ==> r[i] <= r[j]
  {
    var total := 0.0;
    r := [];
    var i := 0;
    while i < |values|
      invariant 0 <= i <= |values| && |r| == i
      invariant total == Sum(values[..i])
      invariant forall k :: 0 <= k < i ==> r[k] == Sum(values[..k + 1])
      invariant forall k :: 0 < k < i ==> r[k] == r[k - 1] + values[k]
      invariant i > 0 ==> total == r[i - 1]
    {
      assert values[..i + 1][..i] == values[..i];
      total := total + values[i];
      r := r + [total];
      i := i + 1;
    }
    if |values| > 0 {
      assert values[..1][..0] == [];
    }
    if forall k :: 0 <= k < |values| ==> values[k] >= 0.0 {
      RunningTotalsGrow(r, values);
    }
  }

  lemma RunningTotalsGrow(r: seq<real>, values: seq<real>)
    requires |r| == |values|
    requires forall i :: 0 < i < |r| ==> r[i] == r[i - 1] + values[i]
    requires forall i :: 0 <= i < |values| ==> values[i] >= 0.0
    ensures forall i, j :: 0 <= i <= j < |r| ==> r[i] <= r[j]
  {
    forall i, j | 0 <= i <= j < |r| ensures r[i] <= r[j] {
      var k := i;
      while k < j
        invariant i <= k <= j && r[i] <= r[k]
      {
        k := k + 1;
      }
    }
  }
}

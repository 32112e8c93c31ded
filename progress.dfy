/** The state kept by src/ui/progress.cpp while a generation runs: the bar's position
    (`ProgressBar`), the counters of `GenerationStats` with its duration text, and
    `ConsoleProgress`, which prints a percentage line only when the percentage changes.
    What a class writes to standard output is kept in an `output` field. */
module Progress {
  import opened Strings

  // ---------------------------------------------------------------------------
  // Durations

  /** `GenerationStats::format_duration`: whole seconds and hundredths, the hundredths
      truncated and padded to two digits, once there is at least one second; the
      milliseconds otherwise. */
  function FormatDuration(ms: nat): string {
    // the milliseconds left over once the whole seconds are taken off
    var seconds := ms / 1000;
    var rest := ms % 1000;
    if seconds > 0 then NatToString(seconds) + "." + PadTwo(rest / 10) + "s"
    else NatToString(rest) + "ms"
  }

  /** Below one second the text is the milliseconds; from one second on it is the
      seconds, a '.', the hundredths (truncated) and "s". */
  lemma FormatDurationShape(ms: nat)
    ensures ms < 1000 ==> FormatDuration(ms) == NatToString(ms) + "ms"
    ensures ms >= 1000 ==>
      FormatDuration(ms) == NatToString(ms / 1000) + ("." + (PadTwo(ms % 1000 / 10) + "s"))
  {
    if ms < 1000 {
      assert ms / 1000 == 0 && ms % 1000 == ms;
    } else {
      assert ms / 1000 > 0;
    }
  }

  /** The character after the leading digits tells the two forms apart: '.' from one
      second on, 'm' below. */
  lemma DurationMarker(ms: nat)
    ensures var s := FormatDuration(ms);
      DigitRun(s) < |s| && (s[DigitRun(s)] == '.' <==> ms >= 1000)
  {
    FormatDurationShape(ms);
    if ms >= 1000 {
      DigitRunOf(NatToString(ms / 1000), "." + (PadTwo(ms % 1000 / 10) + "s"));
    } else {
      DigitRunOf(NatToString(ms), "ms");
    }
  }

  /** The text gives the duration back: exactly below one second, to the hundredth from
      one second on. */
  lemma FormatDurationInjective(a: nat, b: nat)
    requires FormatDuration(a) == FormatDuration(b)
    ensures a >= 1000 <==> b >= 1000
    ensures a < 1000 ==> a == b
    ensures a >= 1000 ==> a / 10 == b / 10
  {
    DurationMarker(a);
    DurationMarker(b);
    FormatDurationShape(a);
    FormatDurationShape(b);
    if a >= 1000 {
      var qa := "." + (PadTwo(a % 1000 / 10) + "s");
      var qb := "." + (PadTwo(b % 1000 / 10) + "s");
      DigitsSplit(NatToString(a / 1000), qa, NatToString(b / 1000), qb);
      NatToStringInjective(a / 1000, b / 1000);
      PrefixCancel(".", PadTwo(a % 1000 / 10) + "s", PadTwo(b % 1000 / 10) + "s");
      assert PadTwo(a % 1000 / 10) == (PadTwo(a % 1000 / 10) + "s")[..|PadTwo(a % 1000 / 10) + "s"| - 1];
      assert PadTwo(b % 1000 / 10) == (PadTwo(b % 1000 / 10) + "s")[..|PadTwo(b % 1000 / 10) + "s"| - 1];
      assert a / 10 == 100 * (a / 1000) + a % 1000 / 10;
      assert b / 10 == 100 * (b / 1000) + b % 1000 / 10;
    } else {
      DigitsSplit(NatToString(a), "ms", NatToString(b), "ms");
      NatToStringInjective(a, b);
    }
  }

  // ---------------------------------------------------------------------------
  // Counters

  /** The counters of `GenerationStats`; its timer is not part of this model. */
  class GenerationStats {
    var filesCreated: nat
    var dirsCreated: nat

    constructor ()
      ensures filesCreated == 0 && dirsCreated == 0
    {
      filesCreated := 0;
      dirsCreated := 0;
    }

    method IncrementFiles()
      modifies this
      ensures filesCreated == old(filesCreated) + 1 && dirsCreated == old(dirsCreated)
    {
      filesCreated := filesCreated + 1;
    }

    method IncrementDirectories()
      modifies this
      ensures dirsCreated == old(dirsCreated) + 1 && filesCreated == old(filesCreated)
    {
      dirsCreated := dirsCreated + 1;
    }
  }

  /** The position of `ProgressBar`; how it is drawn is not part of this model. */
  class ProgressBar {
    const total: int
    const width: int
    var current: int
    var currentItem: string
    var status: string

    constructor (total: int, width: int)
      ensures this.total == total && this.width == width && current == 0
      ensures currentItem == "" && status == ""
    {
      this.total := total;
      this.width := width;
      current := 0;
      currentItem := "";
      status := "";
    }

    /** `update`: the new position replaces the old one, whatever it was. */
    method Update(current: int)
      modifies this
      ensures this.current == current && currentItem == old(currentItem) && status == old(status)
    {
      this.current := current;
    }

    method SetCurrentItem(item: string)
      modifies this
      ensures currentItem == item && current == old(current) && status == old(status)
    {
      currentItem := item;
    }

    method SetStatus(status: string)
      modifies this
      ensures this.status == status && current == old(current) && currentItem == old(currentItem)
    {
      this.status := status;
    }

    /** `is_complete`. */
    predicate IsComplete()
      reads this
    {
      current >= total
    }
  }

  /** Once updated to the total or beyond, a bar is complete, and never before. */
  lemma BarCompleteAfterUpdate(bar: ProgressBar, c: int)
    requires bar.current == c
    ensures bar.IsComplete() <==> c >= bar.total
  {
  }

  // ---------------------------------------------------------------------------
  // Console progress

  /** C++ `/` on `int`: the quotient truncated toward zero. */
  function Quot(a: int, b: int): (q: int)
    requires b != 0
    ensures a >= 0 && b > 0 ==> q == a / b
    ensures (a >= 0) == (b > 0) ==> q >= 0
    ensures (a >= 0) != (b > 0) ==> q <= 0
  {
    var na: nat := if a < 0 then -a else a;
    var nb: nat := if b < 0 then -b else b;
    DivNonNegative(na, nb);
    var m := na / nb;
    if (a < 0) == (b < 0) then m else -m
  }

  /** The percentage `print_progress` computes: `current * 100 / total`. */
  function Percentage(current: int, total: int): int
    requires total != 0
  {
    Quot(current * 100, total)
  }

  /** The line `print_progress` writes. */
  function ProgressLine(current: int, total: int): string
    requires total != 0
  {
    "\rProgress: " + IntToString(Percentage(current, total)) + "% (" + IntToString(current) + "/" + IntToString(total) + ")"
  }

  /** A percentage between 0 and 100 while the position is between 0 and the total, and
      never lower for a later position. */
  lemma PercentageBounds(a: int, b: int, total: int)
    requires 0 <= a <= b <= total && total > 0
    ensures 0 <= Percentage(a, total) <= Percentage(b, total) <= 100
  {
    assert a * 100 <= b * 100 <= total * 100;
    DivMonotone(a * 100, b * 100, total);
    DivMonotone(b * 100, total * 100, total);
    SelfPercentage(total);
  }

  lemma DivNonNegative(x: nat, d: nat)
    requires d > 0
    ensures x / d >= 0
  {
    DivMonotone(0, x, d);
    assert 0 / d == 0;
  }

  lemma DivMonotone(x: nat, y: nat, d: nat)
    requires x <= y && d > 0
    ensures x / d <= y / d
  {
    var qx, qy := x / d, y / d;
    assert qx * d <= x;
    assert y < (qy + 1) * d;
    MulCancelLess(qx, qy + 1, d);
  }

  lemma MulCancelLess(a: int, b: int, d: int)
    requires d > 0 && a * d < b * d
    ensures a < b
  {
    assert (b - a) * d == b * d - a * d;
  }

  /** What `print_progress` writes, and the percentage it then remembers, when `last` is
      the one remembered before. */
  function PrintStep(last: int, current: int, total: int): (r: (string, int))
    requires total != 0
    ensures r.1 == Percentage(current, total)
    ensures r.0 == "" <==> Percentage(current, total) == last
    ensures r.0 != "" ==> r.0 == ProgressLine(current, total)
  {
    var percentage := Percentage(current, total);
    (if percentage != last then ProgressLine(current, total) else "", percentage)
  }

  /** Printing twice at the same position writes nothing the second time. */
  lemma PrintStepTwice(last: int, current: int, total: int)
    requires total != 0
    ensures var (_, p) := PrintStep(last, current, total);
      PrintStep(p, current, total) == ("", p)
  {
  }

  /** The percentages printed by `print_progress` at the positions `cs` in turn. */
  function Printed(last: int, cs: seq<int>, total: int): seq<int>
    requires total != 0
    decreases cs
  {
    if cs == [] then []
    else
      var p := Percentage(cs[0], total);
      (if p != last then [p] else []) + Printed(p, cs[1..], total)
  }

  /** Strictly increasing, every element above `low` and at most `high`. */
  predicate IncreasingWithin(ps: seq<int>, low: int, high: int) {
    (forall i, j | 0 <= i < j < |ps| :: ps[i] < ps[j]) &&
    (forall i | 0 <= i < |ps| :: low < ps[i] <= high)
  }

  /** Moving forward from 0 to the total, the console prints each percentage at most
      once, in increasing order, all of them between 0 and 100 and above the one it
      remembered at the start. */
  lemma {:induction false} PrintedIncreasing(last: int, cs: seq<int>, total: int)
    requires total > 0
    requires forall i | 0 <= i < |cs| :: 0 <= cs[i] <= total
    requires forall i, j | 0 <= i < j < |cs| :: cs[i] <= cs[j]
    requires cs != [] ==> last <= Percentage(cs[0], total)
    decreases cs
    ensures IncreasingWithin(Printed(last, cs, total), last, 100)
  {
    if cs != [] {
      var p := Percentage(cs[0], total);
      PercentageBounds(cs[0], cs[0], total);
      if |cs| > 1 {
        PercentageBounds(cs[0], cs[1], total);
      }
      PrintedIncreasing(p, cs[1..], total);
      var rest := Printed(p, cs[1..], total);
      var ps := Printed(last, cs, total);
      if p != last {
        assert ps == [p] + rest;
        forall i, j | 0 <= i < j < |ps| ensures ps[i] < ps[j] {
          assert ps[j] == rest[j - 1];
          if i > 0 {
            assert ps[i] == rest[i - 1];
          }
        }
      } else {
        assert ps == rest;
      }
    }
  }

  /** `ConsoleProgress`. */
  class ConsoleProgress {
    const total: int
    const verbose: bool
    var current: int
    var lastPercentage: int
    /** What has been written to standard output. */
    var output: string

    constructor (total: int, verbose: bool)
      ensures this.total == total && this.verbose == verbose
      ensures current == 0 && lastPercentage == -1 && output == ""
    {
      this.total := total;
      this.verbose := verbose;
      current := 0;
      lastPercentage := -1;
      output := "";
    }

    /** `print_progress`: writes the line only when the percentage differs from the last
        one written, and remembers it. */
    method PrintProgress()
      requires total != 0
      modifies this
      ensures var (line, p) := PrintStep(old(lastPercentage), current, total);
        output == old(output) + line && lastPercentage == p && current == old(current)
    {
      var percentage := Quot(current * 100, total);
      if percentage != lastPercentage {
        output := output + ProgressLine(current, total);
        lastPercentage := percentage;
      }
    }

    /** `update`: in verbose mode with an item, writes the item line and leaves the
        percentage alone; otherwise prints the progress. */
    method Update(current: int, item: string)
      requires !(verbose && item != "") ==> total != 0
      modifies this
      ensures this.current == current
      ensures verbose && item != "" ==>
        output == old(output) + "[" + IntToString(current) + "/" + IntToString(total) + "] " + item + "\n" &&
        lastPercentage == old(lastPercentage)
      ensures !(verbose && item != "") ==>
        var (line, p) := PrintStep(old(lastPercentage), current, total);
        output == old(output) + line && lastPercentage == p
    {
      this.current := current;
      if verbose && item != "" {
        output := output + "[" + IntToString(current) + "/" + IntToString(total) + "] " + item + "\n";
      } else {
        PrintProgress();
      }
    }

    /** `complete`: moves to the total, prints the progress and ends the line. */
    method Complete()
      requires total != 0
      modifies this
      ensures current == total && lastPercentage == 100
      ensures output == old(output) + PrintStep(old(lastPercentage), total, total).0 + "\n"
    {
      current := total;
      SelfPercentage(total);
      PrintProgress();
      output := output + "\n";
    }
  }

  /** Any non-zero total is 100 percent of itself. */
  lemma SelfPercentage(total: int)
    requires total != 0
    ensures Percentage(total, total) == 100
  {
    var m: nat := if total < 0 then -total else total;
    assert (if total * 100 < 0 then -(total * 100) else total * 100) == m * 100;
    MulDivCancel(100, m);
  }

  lemma MulDivCancel(k: nat, m: nat)
    requires m > 0
    ensures (m * k) / m == k
  {
    var q := (m * k) / m;
    assert q * m <= m * k < (q + 1) * m;
    assert (k + 1) * m == k * m + m;
    MulCancelLess(q, k + 1, m);
    MulCancelLess(k, q + 1, m);
  }
}

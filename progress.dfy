/** The converter's arithmetic for its messages: the `mm:ss` rendering of a
    duration and the progress percentage with the lines the copy loop
    reports. */
module Progress {
  import opened Decimal

  /** Two-digit numbers are rendered with two digits. */
  lemma TwoDigits(n: nat)
    requires 10 <= n < 100
    ensures |Digits(n)| == 2
  {
    assert Digits(n) == Digits(n / 10) + [DigitChar(n % 10)];
  }

  /** `format_duration` for a whole number of seconds (`int(seconds)`):
      the minutes, zero-padded to at least two digits and not capped, a
      `:`, and the seconds as exactly two digits. Read back, the two fields
      give the duration again. */
  function FormatDuration(seconds: nat): (r: string)
    ensures |r| >= 5 && r[|r| - 3] == ':'
    ensures AllDigits(r[..|r| - 3]) && AllDigits(r[|r| - 2..])
    ensures Value(r[..|r| - 3]) * 60 + Value(r[|r| - 2..]) == seconds
    ensures Value(r[|r| - 2..]) < 60
    ensures |r| - 3 == if seconds / 60 < 10 then 2 else |Digits(seconds / 60)|
  {
    var m, s := seconds / 60, seconds % 60;
    assert |Pad2(s)| == 2 by {
      if s >= 10 {
        TwoDigits(s);
      }
    }
    var mm, ss := Pad2(m), Pad2(s);
    var r := mm + ":" + ss;
    assert r[..|r| - 3] == mm && r[|r| - 2..] == ss;
    r
  }

  /** Durations of an hour and more keep counting minutes: the minutes
      field grows beyond two digits. */
  lemma FormatDurationLong(seconds: nat)
    requires seconds >= 100 * 60
    ensures |FormatDuration(seconds)| > 5
  {
    var r := FormatDuration(seconds);
    if |r| == 5 {
      assert false;
    }
  }

  /** The progress percentage of `convert_maildir`:
      `(count * 100) // total_msgs`, or 100 when there is nothing to count. */
  function Percent(count: nat, total: nat): (p: nat)
    ensures total == 0 ==> p == 100
    ensures total > 0 ==> p * total <= count * 100 < (p + 1) * total
  {
    if total > 0 then count * 100 / total else 100
  }

  /** While the count does not exceed the total, the percentage stays
      within 0 to 100, and it reaches 100 with the last message. */
  lemma PercentBounds(count: nat, total: nat)
    requires count <= total
    ensures Percent(count, total) <= 100
    ensures count == total ==> Percent(count, total) == 100
  {
    if total > 0 {
      var p := Percent(count, total);
      if p > 100 {
        assert false;
      }
      if count == total {
        assert p * total <= 100 * total < (p + 1) * total;
        assert p <= 100 && p >= 100;
      }
    }
  }

  lemma MulMono(a: nat, b: nat, c: nat)
    requires a <= b
    ensures a * c <= b * c
  {
    assert b * c == a * c + (b - a) * c;
  }

  lemma LtCancel(a: nat, b: nat, c: nat)
    requires c > 0 && a * c < b * c
    ensures a < b
  {
    if a >= b {
      MulMono(b, a, c);
    }
  }

  /** The percentage never goes down as the count grows. */
  lemma PercentMonotone(c1: nat, c2: nat, total: nat)
    requires c1 <= c2
    ensures Percent(c1, total) <= Percent(c2, total)
  {
    if total > 0 {
      var p1, p2 := Percent(c1, total), Percent(c2, total);
      MulMono(c1, c2, 100);
      LtCancel(p1, p2 + 1, total);
    }
  }

  /** One progress report: `[user] count/total berichten (percent%)`. */
  datatype Line = Line(count: nat, total: nat, percent: nat)

  /** Whether the line for `count` is written: every message with one
      worker (a live update of one line), every hundredth and the last
      with several. */
  predicate Reported(count: nat, total: nat, workers: int) {
    workers <= 1 || count % 100 == 0 || count == total
  }

  /** The lines written while the first `n` messages are copied. */
  function LinesUpTo(n: nat, total: nat, workers: int): (ls: seq<Line>)
    ensures |ls| <= n
  {
    if n == 0 then []
    else LinesUpTo(n - 1, total, workers) + (if Reported(n, total, workers) then [Line(n, total, Percent(n, total))] else [])
  }

  /** Every line reports the percentage of its own count, at most `n`. */
  predicate LinesOfCounts(ls: seq<Line>, n: nat, total: nat) {
    forall i :: 0 <= i < |ls| ==> 1 <= ls[i].count <= n && ls[i].total == total && ls[i].percent == Percent(ls[i].count, total)
  }

  /** The counts of the lines go up strictly. */
  predicate CountsIncrease(ls: seq<Line>) {
    forall i, j :: 0 <= i < j < |ls| ==> ls[i].count < ls[j].count
  }

  /** The percentages of the lines never go down. */
  predicate PercentsNonDecreasing(ls: seq<Line>) {
    forall i, j :: 0 <= i < j < |ls| ==> ls[i].percent <= ls[j].percent
  }

  /** Every line reports the percentage of its own count, the counts go up
      strictly and do not exceed the number of messages copied. */
  lemma {:induction false} LinesCounts(n: nat, total: nat, workers: int)
    ensures LinesOfCounts(LinesUpTo(n, total, workers), n, total)
    ensures CountsIncrease(LinesUpTo(n, total, workers))
  {
    if n > 0 {
      LinesCounts(n - 1, total, workers);
      var prev := LinesUpTo(n - 1, total, workers);
      var ls := LinesUpTo(n, total, workers);
      if Reported(n, total, workers) {
        assert ls == prev + [Line(n, total, Percent(n, total))];
        forall i | 0 <= i < |ls| ensures 1 <= ls[i].count <= n && ls[i].total == total && ls[i].percent == Percent(ls[i].count, total) {
          if i < |prev| {
            assert ls[i] == prev[i];
          }
        }
        forall i, j | 0 <= i < j < |ls| ensures ls[i].count < ls[j].count {
          assert ls[i] == prev[i];
          if j < |prev| {
            assert ls[j] == prev[j];
          }
        }
      } else {
        assert ls == prev;
      }
    }
  }

  /** The percentages reported never go down, and stay within 100 when no
      more messages are copied than were counted. */
  lemma LinesPercent(n: nat, total: nat, workers: int)
    ensures PercentsNonDecreasing(LinesUpTo(n, total, workers))
    ensures n <= total ==> forall i :: 0 <= i < |LinesUpTo(n, total, workers)| ==> LinesUpTo(n, total, workers)[i].percent <= 100
  {
    var ls := LinesUpTo(n, total, workers);
    LinesCounts(n, total, workers);
    forall i, j | 0 <= i < j < |ls| ensures ls[i].percent <= ls[j].percent {
      PercentMonotone(ls[i].count, ls[j].count, total);
    }
    if n <= total {
      forall i | 0 <= i < |ls| ensures ls[i].percent <= 100 {
        PercentBounds(ls[i].count, total);
      }
    }
  }

  /** With one worker there is a line per message; in every mode, when
      the count matches the messages copied, the last line reads 100%. */
  lemma LinesComplete(n: nat, total: nat, workers: int)
    ensures workers <= 1 ==> |LinesUpTo(n, total, workers)| == n
    ensures n > 0 && n == total ==>
      && LinesUpTo(n, total, workers) != []
      && LinesUpTo(n, total, workers)[|LinesUpTo(n, total, workers)| - 1] == Line(n, n, 100)
  {
    if workers <= 1 {
      OneLineEach(n, total, workers);
    }
    if n > 0 && n == total {
      PercentBounds(n, total);
    }
  }

  lemma {:induction false} OneLineEach(n: nat, total: nat, workers: int)
    requires workers <= 1
    ensures |LinesUpTo(n, total, workers)| == n
  {
    if n > 0 {
      OneLineEach(n - 1, total, workers);
    }
  }
}

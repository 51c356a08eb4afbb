/**
 * The two views update_timer derives from time_left: the MM:SS text of the
 * big display (also used by the background notification) and the colour
 * band that marks how urgent the remaining time is.
 */
module TimerView {
  import opened Text
  import opened TimerEngine

  /** f"{n:02d}": the decimal digits of n, zero-padded on the left to two characters. */
  function Pad2(n: nat): string {
    ZeroPad(ShowNat(n), 2)
  }

  /** The padded text is all digits, denotes n, and is exactly two characters below 100. */
  lemma Pad2Value(n: nat)
    ensures AllDigits(Pad2(n)) && DigitsValue(Pad2(n)) == n
    ensures |Pad2(n)| == (if n < 10 then 2 else |ShowNat(n)|)
    ensures |Pad2(n)| >= 2 && (n < 100 ==> |Pad2(n)| == 2)
    ensures n >= 10 ==> Pad2(n)[0] != '0'
  {
    var digits := ShowNat(n);
    var r := Pad2(n);
    var k := |r| - |digits|;
    assert r == r[..k] + digits;
    LeadingZerosValue(r[..k], digits);
    ShowNatValue(n);
    if n < 100 {
      ShowNatBelow100(n);
    }
  }

  lemma ShowNatBelow100(n: nat)
    requires n < 100
    ensures |ShowNat(n)| <= 2
  {
    if n >= 10 {
      assert n / 10 < 10;
      assert |ShowNat(n / 10)| == 1;
    }
  }

  /**
   * A clock text for t seconds: at least two digits of minutes, a colon, then
   * two digits of seconds below 60, together worth t.
   */
  predicate ReadsAs(r: string, t: nat) {
    |r| >= 5 && r[|r| - 3] == ':' &&
    AllDigits(r[..|r| - 3]) && AllDigits(r[|r| - 2..]) &&
    DigitsValue(r[|r| - 2..]) < 60 &&
    DigitsValue(r[..|r| - 3]) * 60 + DigitsValue(r[|r| - 2..]) == t
  }

  /** f"{minutes:02d}:{seconds:02d}" with minutes = t // 60 and seconds = t % 60: it reads back as t. */
  function Display(t: nat): (r: string)
    ensures ReadsAs(r, t)
    ensures t < 6000 ==> |r| == 5
    ensures t >= 600 ==> r[0] != '0'
  {
    var mm := Pad2(t / 60);
    var ss := Pad2(t % 60);
    DisplayParts(t, mm, ss);
    mm + ":" + ss
  }

  lemma DisplayParts(t: nat, mm: string, ss: string)
    requires mm == Pad2(t / 60) && ss == Pad2(t % 60)
    ensures ReadsAs(mm + ":" + ss, t)
    ensures t < 6000 ==> |mm + ":" + ss| == 5
    ensures t >= 600 ==> (mm + ":" + ss)[0] != '0'
  {
    var q, m := t / 60, t % 60;
    MinutesAndSeconds(t);
    Pad2Value(q);
    Pad2Value(m);
    ColonSplit(mm, ss);
    assert (mm + ":" + ss)[0] == mm[0];
  }

  lemma MinutesAndSeconds(t: nat)
    ensures (t / 60) * 60 + t % 60 == t && t % 60 < 60
    ensures t < 6000 ==> t / 60 < 100
    ensures t >= 600 ==> t / 60 >= 10
  {
  }

  lemma ColonSplit(a: string, b: string)
    requires |b| == 2
    ensures var r := a + ":" + b;
            |r| == |a| + 3 && r[|r| - 3] == ':' && r[..|r| - 3] == a && r[|r| - 2..] == b
  {
    var r := a + ":" + b;
    assert r[..|a|] == a;
    assert r[|a| + 1..] == b;
  }

  /** The colour update_timer gives the display: red, orange or the normal blue. */
  datatype Band = Normal | Warning | Critical

  /** The if/elif chain on time_left, with its thresholds at 60 and 300 seconds. */
  function BandOf(timeLeft: int): (b: Band)
    ensures b == Critical <==> timeLeft <= 60
    ensures b == Warning <==> 60 < timeLeft <= 300
    ensures b == Normal <==> timeLeft > 300
  {
    if timeLeft <= 60 then Critical
    else if timeLeft <= 300 then Warning
    else Normal
  }

  function Urgency(b: Band): nat {
    match b
    case Normal => 0
    case Warning => 1
    case Critical => 2
  }

  /** Less time left is never a calmer band. */
  lemma BandMonotone(t1: int, t2: int)
    requires t1 <= t2
    ensures Urgency(BandOf(t1)) >= Urgency(BandOf(t2))
  {
  }

  /** During a countdown the band only escalates: after any number of ticks it is at least as urgent as before. */
  lemma TicksNeverCalm(s: TimerState, k: nat)
    requires Inv(s)
    ensures Urgency(BandOf(Ticks(s, k).timeLeft)) >= Urgency(BandOf(s.timeLeft))
  {
    TicksBounded(s, k);
    BandMonotone(Ticks(s, k).timeLeft, s.timeLeft);
  }

  /** What timer_finished writes ("00:00" in red) is what the two views give for 0 seconds left. */
  lemma FinishedView()
    ensures Display(0) == "00:00" && BandOf(0) == Critical
  {
    assert Pad2(0) == "00";
  }
}

/** The merge of the taps' samples into one timeline: the earliest tap with samples left is
    dumped next, and the clock signal is advanced up to its cycle in between. */
module Timeline {
  import opened Wrappers
  import opened Seqs
  import opened Protocol
  import opened Vcd
  import opened Trace

  /** A tap with samples left to dump: neither empty nor finished. */
  predicate Live(t: Tap)
  {
    t.samples != 0 && t.curSample != t.samples
  }

  /** No tap has samples left. */
  ghost predicate Finished(s: seq<Tap>)
  {
    forall i :: 0 <= i < |s| ==> !Live(s[i])
  }

  /** `r` is what find_earliest_tap answers for the taps `s`: no tap when none is live;
      otherwise a live tap whose cycle is no later than any live tap's, and strictly
      earlier than that of every live tap before it. */
  ghost predicate IsEarliest(s: seq<Tap>, r: Option<nat>)
  {
    match r
    case None => Finished(s)
    case Some(e) =>
      && e < |s| && Live(s[e])
      && (forall i :: 0 <= i < |s| && Live(s[i]) ==> s[e].cycleTime <= s[i].cycleTime)
      && (forall i :: 0 <= i < e && Live(s[i]) ==> s[e].cycleTime < s[i].cycleTime)
  }

  /** The answer is fully determined: among taps at the same earliest cycle the first wins. */
  lemma EarliestUnique(s: seq<Tap>, r: Option<nat>, r': Option<nat>)
    requires IsEarliest(s, r) && IsEarliest(s, r')
    ensures r == r'
  {
    if r.Some? && r'.Some? {
      var e, e' := r.value, r'.value;
      assert Live(s[e]) && Live(s[e']);
      // each is no later than the other, so neither can come strictly before the other
      assert s[e].cycleTime == s[e'].cycleTime;
    }
  }

  /** find_earliest_tap: one scan, replacing the candidate only by a strictly earlier tap. */
  method FindEarliest(taps: array<Tap>) returns (r: Option<nat>)
    ensures IsEarliest(taps[..], r)
  {
    r := None;
    for i := 0 to taps.Length
      invariant IsEarliest(taps[..i], r)
    {
      var tap := taps[i];
      if !Live(tap) {
        continue;
      }
      if r.Some? {
        if tap.cycleTime < taps[r.value].cycleTime {
          r := Some(i);
        }
      } else {
        r := Some(i);
      }
    }
    assert taps[..taps.Length] == taps[..];
  }

  /** The scan of find_earliest_tap as a function: the first live tap at the earliest cycle. */
  function Earliest(s: seq<Tap>): (r: Option<nat>)
    ensures IsEarliest(s, r)
  {
    if s == [] then None
    else
      var n := |s| - 1;
      var r := Earliest(s[..n]);
      assert forall i :: 0 <= i < n ==> s[..n][i] == s[i];
      if !Live(s[n]) then r
      else if r.None? || s[n].cycleTime < s[r.value].cycleTime then Some(n)
      else r
  }

  // ----- advance_clock -----

  /** A gap of more cycles than this is collapsed to a single `bx` tick. */
  const MAX_DELAY_CYCLES: nat := 10000

  /** One clock cycle `t`: low at time `2t`, high at time `2t + 1`. */
  function Tick(t: nat): seq<Line>
  {
    [Timestamp(2 * t), ClockValue('0'), Timestamp(2 * t + 1), ClockValue('1')]
  }

  /** The undefined-clock marker written at cycle `t` before a collapsed gap. */
  function Gap(t: nat): seq<Line>
  {
    [Timestamp(2 * t), ClockValue('x'), Timestamp(2 * t + 1), ClockValue('x')]
  }

  /** The cycles `lo` up to, not including, `hi`. */
  function Ticks(lo: nat, hi: nat): seq<Line>
    decreases hi - lo
  {
    if hi <= lo then [] else Ticks(lo, hi - 1) + Tick(hi - 1)
  }

  /** What advance_clock writes to move the clock from `cur` to `next`. */
  function ClockLines(cur: nat, next: nat): seq<Line>
    requires cur <= next
  {
    if next - cur > MAX_DELAY_CYCLES then Gap(cur) + Ticks(next - MAX_DELAY_CYCLES, next)
    else Ticks(cur, next)
  }

  /** advance_clock: returns `next` and writes the clock edges up to it. */
  method AdvanceClock(cur: nat, next: nat) returns (t: nat, lines: seq<Line>)
    requires cur <= next
    ensures t == next && lines == ClockLines(cur, next)
  {
    var curTime := cur;
    lines := [];
    if next - curTime > MAX_DELAY_CYCLES {
      lines := Gap(curTime);
      curTime := next - MAX_DELAY_CYCLES;
    }
    ghost var first := curTime;
    ghost var prefix := lines;
    while curTime < next
      invariant first <= curTime <= next
      invariant lines == prefix + Ticks(first, curTime)
    {
      lines := lines + Tick(curTime);
      curTime := curTime + 1;
    }
    t := curTime;
  }

  /** Cycle `lo + k` is written as lines `4k` to `4k + 3`. */
  lemma {:induction false} TicksAt(lo: nat, hi: nat, k: nat)
    requires lo + k < hi
    ensures |Ticks(lo, hi)| == 4 * (hi - lo)
    ensures Ticks(lo, hi)[4 * k .. 4 * k + 4] == Tick(lo + k)
    decreases hi
  {
    if lo + k < hi - 1 {
      TicksAt(lo, hi - 1, k);
    } else {
      TicksLength(lo, hi - 1);
    }
  }

  lemma {:induction false} TicksLength(lo: nat, hi: nat)
    ensures |Ticks(lo, hi)| == (if hi <= lo then 0 else 4 * (hi - lo))
    decreases hi
  {
    if lo < hi {
      TicksLength(lo, hi - 1);
    }
  }

  /** advance_clock writes one low/high pair per cycle of the gap, at most 10000 of them,
      plus one `bx` pair exactly when the gap exceeds 10000 cycles: its output is bounded
      whatever the gap. */
  lemma ClockLinesLength(cur: nat, next: nat)
    requires cur <= next
    ensures var gap := next - cur;
      |ClockLines(cur, next)| ==
        (if gap > MAX_DELAY_CYCLES then 4 + 4 * MAX_DELAY_CYCLES else 4 * gap)
    ensures |ClockLines(cur, next)| <= 4 * (MAX_DELAY_CYCLES + 1)
    ensures ClockLines(cur, next) == [] <==> cur == next
  {
    if next - cur > MAX_DELAY_CYCLES {
      TicksLength(next - MAX_DELAY_CYCLES, next);
    } else {
      TicksLength(cur, next);
    }
  }

  /** The two edges of cycle `t` carry the times `2t` and `2t + 1`. */
  lemma EdgeStamps(t: nat, low: char, high: char)
    ensures Stamps([Timestamp(2 * t), ClockValue(low), Timestamp(2 * t + 1), ClockValue(high)])
            == [2 * t, 2 * t + 1]
  {
    var a := [Timestamp(2 * t), ClockValue(low)];
    var b := [Timestamp(2 * t + 1), ClockValue(high)];
    assert a[..1] == [Timestamp(2 * t)] && b[..1] == [Timestamp(2 * t + 1)];
    assert [Timestamp(2 * t)][..0] == [] && [Timestamp(2 * t + 1)][..0] == [];
    assert Stamps([Timestamp(2 * t)]) == [2 * t];
    assert Stamps([Timestamp(2 * t + 1)]) == [2 * t + 1];
    assert Stamps(a) == [2 * t] && Stamps(b) == [2 * t + 1];
    StampsAppend(a, b);
    assert a + b == [Timestamp(2 * t), ClockValue(low), Timestamp(2 * t + 1), ClockValue(high)];
  }

  /** The clock lines of cycles `lo` to `hi` carry strictly increasing times, all in
      `[2 lo, 2 hi)`, and neither open nor close a scope. */
  lemma {:induction false} TicksIncreasing(lo: nat, hi: nat)
    requires lo <= hi
    ensures Orderly(Ticks(lo, hi), 2 * lo, 2 * hi)
    decreases hi
  {
    if lo < hi {
      TicksIncreasing(lo, hi - 1);
      TickOrderly(hi - 1, '0', '1');
      OrderlyAppend(Ticks(lo, hi - 1), Tick(hi - 1), 2 * lo, 2 * (hi - 1), 2 * hi);
    }
  }

  /** The two edges of cycle `t` are orderly lines at times `2t` and `2t + 1`. */
  lemma TickOrderly(t: nat, low: char, high: char)
    ensures Orderly([Timestamp(2 * t), ClockValue(low), Timestamp(2 * t + 1), ClockValue(high)], 2 * t, 2 * t + 2)
  {
    EdgeStamps(t, low, high);
  }

  /** Everything advance_clock writes carries strictly increasing times in `[2 cur, 2 next)`,
      opens no scope and closes none. */
  lemma ClockLinesIncreasing(cur: nat, next: nat)
    requires cur <= next
    ensures Orderly(ClockLines(cur, next), 2 * cur, 2 * next)
  {
    if next - cur > MAX_DELAY_CYCLES {
      GapOrderly(cur, next - MAX_DELAY_CYCLES, next);
    } else {
      TicksIncreasing(cur, next);
    }
  }

  /** The `bx` pair at cycle `cur` followed by the cycles from `lo` on, where `cur < lo`. */
  lemma GapOrderly(cur: nat, lo: nat, hi: nat)
    requires cur < lo <= hi
    ensures Orderly(Gap(cur) + Ticks(lo, hi), 2 * cur, 2 * hi)
  {
    TicksIncreasing(lo, hi);
    TickOrderly(cur, 'x', 'x');
    OrderlyWiden(Gap(cur), 2 * cur, 2 * cur + 2, 2 * cur, 2 * lo);
    OrderlyAppend(Gap(cur), Ticks(lo, hi), 2 * cur, 2 * lo, 2 * hi);
  }

  // ----- the merge loop of vx_scope_stop -----

  /** Samples still to be dumped, over all taps. */
  function Remaining(s: seq<Tap>): nat
  {
    if s == [] then 0
    else
      var t := s[|s| - 1];
      Remaining(s[..|s| - 1]) + (if t.curSample < t.samples then t.samples - t.curSample else 0)
  }

  /** Dumping one more sample of a tap with samples left lowers the samples remaining by one. */
  lemma {:induction false} RemainingStep(s: seq<Tap>, e: nat, t: Tap)
    requires e < |s| && s[e].curSample < s[e].samples
    requires t.curSample == s[e].curSample + 1 && t.samples == s[e].samples
    ensures Remaining(s[e := t]) + 1 == Remaining(s)
  {
    var n := |s| - 1;
    if e < n {
      assert s[e := t][..n] == s[..n][e := t];
      RemainingStep(s[..n], e, t);
    } else {
      assert s[e := t][..n] == s[..n];
    }
  }

  /** How often tap `i` occurs among the dumped taps `picks`. */
  function Count(picks: seq<nat>, i: nat): nat
  {
    if picks == [] then 0
    else Count(picks[..|picks| - 1], i) + (if picks[|picks| - 1] == i then 1 else 0)
  }

  lemma CountAppend(picks: seq<nat>, e: nat, i: nat)
    ensures Count(picks + [e], i) == Count(picks, i) + (if e == i then 1 else 0)
  {
    assert (picks + [e])[..|picks|] == picks;
  }

  ghost predicate Sorted(xs: seq<nat>)
  {
    forall i, j :: 0 <= i < j < |xs| ==> xs[i] <= xs[j]
  }

  lemma SortedAppend(xs: seq<nat>, x: nat)
    requires Sorted(xs) && (xs != [] ==> xs[|xs| - 1] <= x)
    ensures Sorted(xs + [x])
  {
  }

  /** What the merge needs of the taps: no tap is past its last sample, and every tap with
      samples left can be decoded. */
  ghost predicate Decodable(s: seq<Tap>)
  {
    forall i :: 0 <= i < |s| ==> s[i].curSample <= s[i].samples && (Live(s[i]) ==> WellFormed(s[i]))
  }

  /** `t'` is tap `t` with some samples dumped: only its progress and clock differ. */
  ghost predicate Progressed(t: Tap, t': Tap)
  {
    t' == t.(curSample := t'.curSample, cycleTime := t'.cycleTime) && t.curSample <= t'.curSample
  }

  /** Each tap of `s` is the tap at the same place in `s0` with some samples dumped. */
  ghost predicate AllProgressed(s0: seq<Tap>, s: seq<Tap>)
  {
    |s| == |s0| && forall i :: 0 <= i < |s| ==> Progressed(s0[i], s[i])
  }

  /** Each tap of `s` is the tap at the same place in `s0` with `Count(picks, i)` samples dumped. */
  ghost predicate Dumped(s0: seq<Tap>, s: seq<Tap>, picks: seq<nat>)
  {
    && AllProgressed(s0, s)
    && (forall n :: 0 <= n < |picks| ==> picks[n] < |s|)
    && (forall i :: 0 <= i < |s| ==> s[i].curSample == s0[i].curSample + Count(picks, i))
  }

  /** No tap with samples left lies before cycle `cur`. */
  ghost predicate NotBefore(s: seq<Tap>, cur: nat)
  {
    forall i :: 0 <= i < |s| && Live(s[i]) ==> cur <= s[i].cycleTime
  }

  /** Dumping one sample of the earliest tap `e` keeps the taps decodable, leaves no tap
      before `e`'s cycle, and lowers the samples remaining. */
  lemma StepKeeps(s: seq<Tap>, e: nat, t: Tap)
    requires Decodable(s) && IsEarliest(s, Some(e))
    requires Progressed(s[e], t) && t.curSample == s[e].curSample + 1
    requires Live(t) ==> t.cycleTime > s[e].cycleTime
    ensures Decodable(s[e := t]) && NotBefore(s[e := t], s[e].cycleTime)
    ensures Remaining(s[e := t]) < Remaining(s)
  {
    RemainingStep(s, e, t);
    DecodableStep(s, e, t);
    NotBeforeStep(s, e, t);
  }

  /** Dumping one sample of the earliest tap `e`, at its cycle `cur`, keeps the merge's
      invariants: the taps stay decodable, the dump is counted, no tap is left before `cur`,
      and fewer samples remain. */
  lemma DumpStep(s0: seq<Tap>, s: seq<Tap>, picks: seq<nat>, e: nat, t: Tap)
    requires Decodable(s) && Dumped(s0, s, picks) && IsEarliest(s, Some(e))
    requires Progressed(s[e], t) && t.curSample == s[e].curSample + 1
    requires Live(t) ==> t.cycleTime > s[e].cycleTime
    ensures Decodable(s[e := t]) && Dumped(s0, s[e := t], picks + [e])
    ensures NotBefore(s[e := t], s[e].cycleTime)
    ensures Remaining(s[e := t]) < Remaining(s)
  {
    StepKeeps(s, e, t);
    DumpedStep(s0, s, picks, e, t);
  }

  lemma DecodableStep(s: seq<Tap>, e: nat, t: Tap)
    requires Decodable(s) && e < |s| && Live(s[e])
    requires Progressed(s[e], t) && t.curSample == s[e].curSample + 1
    ensures Decodable(s[e := t])
  {
    var s' := s[e := t];
    forall i | 0 <= i < |s'|
      ensures s'[i].curSample <= s'[i].samples && (Live(s'[i]) ==> WellFormed(s'[i]))
    {
      if i == e {
        assert WellFormed(s[e]);
      }
    }
  }

  lemma DumpedStep(s0: seq<Tap>, s: seq<Tap>, picks: seq<nat>, e: nat, t: Tap)
    requires Dumped(s0, s, picks) && e < |s|
    requires Progressed(s[e], t) && t.curSample == s[e].curSample + 1
    ensures Dumped(s0, s[e := t], picks + [e])
  {
    var s' := s[e := t];
    forall i | 0 <= i < |s'|
      ensures Progressed(s0[i], s'[i])
      ensures s'[i].curSample == s0[i].curSample + Count(picks + [e], i)
    {
      CountAppend(picks, e, i);
    }
    forall n | 0 <= n < |picks + [e]|
      ensures (picks + [e])[n] < |s'|
    {
      if n < |picks| {
        assert (picks + [e])[n] == picks[n];
      }
    }
  }

  lemma NotBeforeStep(s: seq<Tap>, e: nat, t: Tap)
    requires IsEarliest(s, Some(e))
    requires Live(t) ==> t.cycleTime > s[e].cycleTime
    ensures NotBefore(s[e := t], s[e].cycleTime)
  {
    var s' := s[e := t];
    forall i | 0 <= i < |s'| && Live(s'[i])
      ensures s[e].cycleTime <= s'[i].cycleTime
    {
      if i != e {
        assert s'[i] == s[i];
      }
    }
  }

  /** Once no tap has samples left, each tap was dumped once per sample it had left. */
  lemma DumpedFully(s0: seq<Tap>, s: seq<Tap>, picks: seq<nat>)
    requires Dumped(s0, s, picks) && Finished(s) && Decodable(s)
    ensures forall i :: 0 <= i < |s| ==> Count(picks, i) == s0[i].samples - s0[i].curSample
  {
    forall i | 0 <= i < |s|
      ensures Count(picks, i) == s0[i].samples - s0[i].curSample
    {
      assert Progressed(s0[i], s[i]) && !Live(s[i]);
    }
  }

  /** A failed dump leaves every tap progressed: at most the tap's sample count moved on. */
  lemma FailedStep(s0: seq<Tap>, s: seq<Tap>, picks: seq<nat>, e: nat, t: Tap)
    requires Dumped(s0, s, picks) && e < |s|
    requires t == s[e].(curSample := t.curSample) && s[e].curSample <= t.curSample
    ensures AllProgressed(s0, s[e := t])
  {
  }

  // ----- the merge as a function -----

  /** What a stretch of the merge produces: the lines written, the words sent to the device,
      the number of response words used, and the taps dumped with their cycles, in order. */
  datatype Merged = Merged(lines: seq<Line>, log: seq<Word>, used: nat, picks: seq<nat>, times: seq<nat>)

  /** No round at all. */
  const NoRounds: Merged := Merged([], [], 0, [], [])

  /** One stretch of the merge followed by another. */
  function Then(a: Merged, b: Merged): Merged
  {
    Merged(a.lines + b.lines, a.log + b.log, a.used + b.used, a.picks + b.picks, a.times + b.times)
  }

  /** A stretch followed by the rest of the merge, when the rest completes. */
  function After(a: Merged, r: Option<Merged>): Option<Merged>
  {
    match r
    case None => None
    case Some(b) => Some(Then(a, b))
  }

  /** One round of the merge loop dumping tap `t`, at index `e`, with the clock at `cur` and
      the device answering `resp`: the clock is advanced to the tap's cycle, the sample's
      value changes follow, and every word is fetched with the tap's GET_DATA command. */
  function Round(t: Tap, e: nat, cur: nat, resp: seq<Word>): Merged
    requires cur <= t.cycleTime
  {
    Merged(ClockLines(cur, t.cycleTime) + SampleChanges(t.signals, resp),
           Repeat(Command(GET_DATA, t.id), WordsConsumed(t)), WordsConsumed(t), [e], [t.cycleTime])
  }

  /** The rest of the merge from the taps `s` with the clock at `cur` and the device answering
      `resp`: nothing once no tap has samples left; otherwise a round dumping the earliest
      tap, then the rest of the merge from the taps with that sample taken, at its cycle.
      None when the device runs out of responses. */
  ghost function MergeFrom(s: seq<Tap>, resp: seq<Word>, cur: nat): Option<Merged>
    requires Decodable(s) && NotBefore(s, cur)
    decreases Remaining(s)
  {
    match Earliest(s)
    case None => Some(NoRounds)
    case Some(e) =>
      var t := s[e];
      if |resp| < WordsConsumed(t) then None
      else
        var t' := NextSample(t, resp[WordsPerSample(t.width)..]);
        StepKeeps(s, e, t');
        After(Round(t, e, cur, resp), MergeFrom(s[e := t'], resp[WordsConsumed(t)..], t.cycleTime))
  }

  /** The trace of a completed merge: its lines, closed by one more clock cycle after the
      last dump; nothing when there was no dump. */
  function Closed(m: Merged): seq<Line>
  {
    if m.times == [] then [] else m.lines + Tick(m.times[|m.times| - 1])
  }

  /** The last cycle dumped, or `d` when there was none. */
  function LastOr(xs: seq<nat>, d: nat): nat
  {
    if xs == [] then d else xs[|xs| - 1]
  }

  /** A stretch followed by no round is that stretch. */
  lemma ThenNoRounds(a: Merged)
    ensures Then(a, NoRounds) == a && Then(NoRounds, a) == a
  {
    assert a.lines + [] == a.lines && a.log + [] == a.log;
    assert a.picks + [] == a.picks && a.times + [] == a.times;
  }

  /** Stretches of the merge compose associatively. */
  lemma AfterThen(a: Merged, b: Merged, r: Option<Merged>)
    ensures After(a, After(b, r)) == After(Then(a, b), r)
  {
    if r.Some? {
      var c := r.value;
      AppendAssoc(a.lines, b.lines, c.lines);
      AppendAssoc(a.log, b.log, c.log);
      AppendAssoc(a.picks, b.picks, c.picks);
      AppendAssoc(a.times, b.times, c.times);
    }
  }

  /** The merge of taps none of which has samples left is empty. */
  lemma MergeNone(s: seq<Tap>, resp: seq<Word>, cur: nat)
    requires Decodable(s) && NotBefore(s, cur) && Finished(s)
    ensures MergeFrom(s, resp, cur) == Some(NoRounds)
  {
    EarliestUnique(s, None, Earliest(s));
  }

  /** The merge fails when the device has fewer responses than the earliest tap's sample needs. */
  lemma MergeShort(s: seq<Tap>, resp: seq<Word>, cur: nat, e: nat)
    requires Decodable(s) && NotBefore(s, cur) && IsEarliest(s, Some(e))
    requires |resp| < WordsConsumed(s[e])
    ensures MergeFrom(s, resp, cur).None?
  {
    EarliestUnique(s, Some(e), Earliest(s));
  }

  /** The merge from `s` is the round dumping its earliest tap, then the merge from there. */
  lemma MergeAdvance(s: seq<Tap>, resp: seq<Word>, cur: nat, e: nat)
    requires Decodable(s) && NotBefore(s, cur) && IsEarliest(s, Some(e))
    requires WordsConsumed(s[e]) <= |resp|
    ensures var t := s[e]; var t' := NextSample(t, resp[WordsPerSample(t.width)..]);
      && Decodable(s[e := t']) && NotBefore(s[e := t'], t.cycleTime)
      && MergeFrom(s, resp, cur) ==
           After(Round(t, e, cur, resp), MergeFrom(s[e := t'], resp[WordsConsumed(t)..], t.cycleTime))
  {
    EarliestUnique(s, Some(e), Earliest(s));
    var t := s[e];
    StepKeeps(s, e, NextSample(t, resp[WordsPerSample(t.width)..]));
  }

  /** A completed merge from taps with samples left opens with the round dumping the
      earliest of them, followed by the completed merge from there. */
  lemma MergeOpen(s: seq<Tap>, resp: seq<Word>, cur: nat) returns (e: nat, s': seq<Tap>, resp': seq<Word>)
    requires Decodable(s) && NotBefore(s, cur) && MergeFrom(s, resp, cur).Some? && !Finished(s)
    ensures IsEarliest(s, Some(e)) && WordsConsumed(s[e]) <= |resp| && cur <= s[e].cycleTime
    ensures s' == s[e := NextSample(s[e], resp[WordsPerSample(s[e].width)..])]
    ensures resp' == resp[WordsConsumed(s[e])..]
    ensures Decodable(s') && NotBefore(s', s[e].cycleTime) && Remaining(s') < Remaining(s)
    ensures MergeFrom(s', resp', s[e].cycleTime).Some?
    ensures MergeFrom(s, resp, cur).value ==
      Then(Round(s[e], e, cur, resp), MergeFrom(s', resp', s[e].cycleTime).value)
  {
    e := Earliest(s).value;
    var t := s[e];
    s', resp' := s[e := NextSample(t, resp[WordsPerSample(t.width)..])], resp[WordsConsumed(t)..];
    StepKeeps(s, e, s'[e]);
  }

  /** A round's lines: clock edges up to the tap's cycle, then its value changes, which open
      no scope and carry no time. */
  lemma RoundOrderly(t: Tap, e: nat, cur: nat, resp: seq<Word>)
    requires cur <= t.cycleTime
    ensures Orderly(Round(t, e, cur, resp).lines, 2 * cur, 2 * t.cycleTime)
    ensures ChangeCount(Round(t, e, cur, resp).lines) == |t.signals|
  {
    var clock, sample := ClockLines(cur, t.cycleTime), SampleChanges(t.signals, resp);
    ClockLinesIncreasing(cur, t.cycleTime);
    ChangesOnly(sample);
    OrderlyAppend(clock, sample, 2 * cur, 2 * t.cycleTime, 2 * t.cycleTime);
    ClockChanges(cur, t.cycleTime);
    ChangeCountUniform(sample);
    ChangeCountAppend(clock, sample);
  }

  /** The dumps of `m` happen at non-decreasing cycles, none before `cur`, one cycle per
      dumped tap, and its lines are orderly from cycle `cur` up to the last of them. */
  ghost predicate InOrder(m: Merged, cur: nat)
  {
    && |m.picks| == |m.times| && Sorted(m.times)
    && (forall k :: 0 <= k < |m.times| ==> cur <= m.times[k])
    && Orderly(m.lines, 2 * cur, 2 * LastOr(m.times, cur))
  }

  /** A round at the earliest tap's cycle followed by a stretch in order from that cycle. */
  lemma InOrderStep(t: Tap, e: nat, cur: nat, resp: seq<Word>, rest: Merged)
    requires cur <= t.cycleTime && InOrder(rest, t.cycleTime)
    ensures InOrder(Then(Round(t, e, cur, resp), rest), cur)
  {
    var c := t.cycleTime;
    var round := Round(t, e, cur, resp);
    RoundOrderly(t, e, cur, resp);
    OrderlyAppend(round.lines, rest.lines, 2 * cur, 2 * c, 2 * LastOr(rest.times, c));
    assert LastOr(round.times + rest.times, cur) == LastOr(rest.times, c);
  }

  /** A completed merge writes orderly lines from cycle `cur` up to its last cycle, the cycles
      of its dumps never decrease, and there is one per dumped tap. */
  lemma {:induction false} MergeOrderly(s: seq<Tap>, resp: seq<Word>, cur: nat)
    requires Decodable(s) && NotBefore(s, cur) && MergeFrom(s, resp, cur).Some?
    ensures InOrder(MergeFrom(s, resp, cur).value, cur)
    decreases Remaining(s)
  {
    if Finished(s) {
      MergeNone(s, resp, cur);
      ChangesOnly([]);
    } else {
      var e, s', resp' := MergeOpen(s, resp, cur);
      MergeOrderly(s', resp', s[e].cycleTime);
      InOrderStep(s[e], e, cur, resp, MergeFrom(s', resp', s[e].cycleTime).value);
    }
  }

  /** `picks` names taps of `s` only, and each as often as it has samples left. */
  ghost predicate DumpsAll(s: seq<Tap>, picks: seq<nat>)
  {
    && (forall k :: 0 <= k < |picks| ==> picks[k] < |s|)
    && (forall i :: 0 <= i < |s| ==> Count(picks, i) == s[i].samples - s[i].curSample)
  }

  /** Dumping tap `e` once, then the dumps that finish the taps with that sample taken. */
  lemma DumpsAllStep(s: seq<Tap>, e: nat, t: Tap, picks: seq<nat>)
    requires e < |s| && t.curSample == s[e].curSample + 1 && t.samples == s[e].samples
    requires DumpsAll(s[e := t], picks)
    ensures DumpsAll(s, [e] + picks)
  {
    forall i | 0 <= i < |s|
      ensures Count([e] + picks, i) == s[i].samples - s[i].curSample
    {
      CountPrepend(e, picks, i);
    }
  }

  /** A completed merge dumps every tap exactly as often as it had samples left. */
  lemma {:induction false} MergeCounts(s: seq<Tap>, resp: seq<Word>, cur: nat)
    requires Decodable(s) && NotBefore(s, cur) && MergeFrom(s, resp, cur).Some?
    ensures DumpsAll(s, MergeFrom(s, resp, cur).value.picks)
    decreases Remaining(s)
  {
    if Finished(s) {
      MergeNone(s, resp, cur);
    } else {
      var e, s', resp' := MergeOpen(s, resp, cur);
      MergeCounts(s', resp', s[e].cycleTime);
      DumpsAllStep(s, e, s'[e], MergeFrom(s', resp', s[e].cycleTime).value.picks);
    }
  }

  /** Counting a dump put in front. */
  lemma {:induction false} CountPrepend(e: nat, picks: seq<nat>, i: nat)
    ensures Count([e] + picks, i) == Count(picks, i) + (if e == i then 1 else 0)
  {
    if picks == [] {
      assert [e] + picks == [e] && [e][..0] == [];
    } else {
      var n := |picks| - 1;
      assert ([e] + picks)[..n + 1] == [e] + picks[..n];
      CountPrepend(e, picks[..n], i);
    }
  }

  /** Value changes still to be written: each sample left writes one per signal. */
  function Workload(s: seq<Tap>): nat
  {
    if s == [] then 0
    else
      var t := s[|s| - 1];
      Workload(s[..|s| - 1]) + (if t.curSample < t.samples then (t.samples - t.curSample) * |t.signals| else 0)
  }

  /** Dumping one more sample of a tap lowers the value changes still to write by its signals. */
  lemma {:induction false} WorkloadStep(s: seq<Tap>, e: nat, t: Tap)
    requires e < |s| && s[e].curSample < s[e].samples
    requires t.curSample == s[e].curSample + 1 && t.samples == s[e].samples && t.signals == s[e].signals
    ensures Workload(s[e := t]) + |t.signals| == Workload(s)
  {
    var n := |s| - 1;
    if e < n {
      assert s[e := t][..n] == s[..n][e := t];
      WorkloadStep(s[..n], e, t);
    } else {
      assert s[e := t][..n] == s[..n];
      var k, w := t.samples - t.curSample, |t.signals|;
      assert (k + 1) * w == k * w + w;
    }
  }

  /** advance_clock writes no value change. */
  lemma ClockChanges(cur: nat, next: nat)
    requires cur <= next
    ensures ChangeCount(ClockLines(cur, next)) == 0
  {
    if next - cur > MAX_DELAY_CYCLES {
      ChangeCountUniform(Gap(cur));
      TicksChanges(next - MAX_DELAY_CYCLES, next);
      ChangeCountAppend(Gap(cur), Ticks(next - MAX_DELAY_CYCLES, next));
    } else {
      TicksChanges(cur, next);
    }
  }

  lemma {:induction false} TicksChanges(lo: nat, hi: nat)
    ensures ChangeCount(Ticks(lo, hi)) == 0
    decreases hi
  {
    if lo < hi {
      TicksChanges(lo, hi - 1);
      ChangeCountUniform(Tick(hi - 1));
      ChangeCountAppend(Ticks(lo, hi - 1), Tick(hi - 1));
    }
  }

  /** A completed merge writes one value change per signal per sample dumped. */
  lemma {:induction false} MergeChanges(s: seq<Tap>, resp: seq<Word>, cur: nat)
    requires Decodable(s) && NotBefore(s, cur) && MergeFrom(s, resp, cur).Some?
    ensures ChangeCount(MergeFrom(s, resp, cur).value.lines) == Workload(s)
    decreases Remaining(s)
  {
    if Finished(s) {
      MergeNone(s, resp, cur);
      WorkloadFinished(s);
    } else {
      var e, s', resp' := MergeOpen(s, resp, cur);
      MergeChanges(s', resp', s[e].cycleTime);
      var rest := MergeFrom(s', resp', s[e].cycleTime).value;
      RoundOrderly(s[e], e, cur, resp);
      ChangeCountAppend(Round(s[e], e, cur, resp).lines, rest.lines);
      WorkloadStep(s, e, s'[e]);
    }
  }

  /** Taps with no samples left have no value changes left to write. */
  lemma {:induction false} WorkloadFinished(s: seq<Tap>)
    requires Decodable(s) && Finished(s)
    ensures Workload(s) == 0
  {
    if s != [] {
      assert Decodable(s[..|s| - 1]) && Finished(s[..|s| - 1]) by {
        assert forall i :: 0 <= i < |s| - 1 ==> s[..|s| - 1][i] == s[i];
      }
      WorkloadFinished(s[..|s| - 1]);
    }
  }

  /** The trace of a completed merge from cycle 0: it opens no scope, its times strictly
      increase, it is empty exactly when no tap had samples, it holds one value change per
      signal per sample, and each tap is dumped once per sample it had left. */
  lemma MergeTrace(s: seq<Tap>, resp: seq<Word>)
    requires Decodable(s) && MergeFrom(s, resp, 0).Some?
    ensures var m := MergeFrom(s, resp, 0).value;
      && Flat(Closed(m)) && Increasing(Stamps(Closed(m)))
      && (Closed(m) == [] <==> Finished(s))
      && ChangeCount(Closed(m)) == Workload(s)
      && DumpsAll(s, m.picks)
  {
    MergeOrderly(s, resp, 0);
    MergeCounts(s, resp, 0);
    MergeChanges(s, resp, 0);
    ClosedTrace(s, MergeFrom(s, resp, 0).value);
    if Finished(s) {
      WorkloadFinished(s);
    }
  }

  /** Closing a stretch in order from cycle 0 with one more clock cycle. */
  lemma ClosedTrace(s: seq<Tap>, m: Merged)
    requires Decodable(s) && InOrder(m, 0) && DumpsAll(s, m.picks)
    ensures Flat(Closed(m)) && Increasing(Stamps(Closed(m)))
    ensures Closed(m) == [] <==> Finished(s)
    ensures ChangeCount(Closed(m)) == if m.times == [] then 0 else ChangeCount(m.lines)
  {
    if m.times != [] {
      var last := m.times[|m.times| - 1];
      TickOrderly(last, '0', '1');
      OrderlyAppend(m.lines, Tick(last), 0, 2 * last, 2 * last + 2);
      ChangeCountUniform(Tick(last));
      ChangeCountAppend(m.lines, Tick(last));
      var e := m.picks[0];
      CountPrepend(e, m.picks[1..], e);
      assert [e] + m.picks[1..] == m.picks;
      assert Live(s[e]);
    } else {
      ChangesOnly([]);
      assert forall i :: 0 <= i < |s| ==> Count(m.picks, i) == 0;
    }
  }

  /** Lines written between scope changes: no scope opened or closed, and strictly increasing
      times, all below `2 * cur`. */
  ghost predicate Timeline(lines: seq<Line>, cur: nat)
  {
    Orderly(lines, 0, 2 * cur)
  }

  /** Lines that are a prefix of a sample's value changes add no scope and no time. */
  lemma SampleLinesFlat(lines: seq<Line>, sigs: seq<Signal>, r: seq<Word>)
    requires lines <= SampleChanges(sigs, r)
    ensures Flat(lines) && Stamps(lines) == []
  {
    ChangesOnly(lines);
  }

  /** Appending one iteration's clock lines, from `cur` to `next`, and sample lines keeps the
      timeline well formed, now up to `next`. */
  lemma TimelineStep(lines: seq<Line>, cur: nat, next: nat, sample: seq<Line>)
    requires Timeline(lines, cur) && cur <= next
    requires Flat(sample) && Stamps(sample) == []
    ensures Timeline(lines + ClockLines(cur, next) + sample, next)
  {
    var clock := ClockLines(cur, next);
    ClockLinesIncreasing(cur, next);
    OrderlyAppend(lines, clock, 0, 2 * cur, 2 * next);
    FlatAppend(lines + clock, sample);
    StampsAppend(lines + clock, sample);
    assert Stamps(lines + clock) + [] == Stamps(lines + clock);
  }

  /** One round of the merge loop: advance the clock to the cycle of the earliest tap `e`,
      then dump one sample of it. The clock lands on that cycle and the lines stay a
      timeline. On success the round's lines, commands and responses are those of `Round`,
      the tap has its sample taken, the dump is counted, nothing is left before the new
      cycle and fewer samples remain; a failure comes from the device or from its running
      out of responses. */
  method DumpEarliest(taps: array<Tap>, dev: Device, e: nat, curTime: nat, lines: seq<Line>,
                      ghost s0: seq<Tap>, ghost picks: seq<nat>)
    returns (err: int, curTime': nat, lines': seq<Line>)
    requires IsEarliest(taps[..], Some(e)) && Decodable(taps[..]) && Dumped(s0, taps[..], picks)
    requires NotBefore(taps[..], curTime) && Timeline(lines, curTime)
    modifies taps, dev
    ensures curTime' == old(taps[e].cycleTime) && curTime <= curTime'
    ensures Timeline(lines', curTime')
    ensures err != 0 ==>
      && err == dev.failCode && AllProgressed(s0, taps[..])
      && (dev.failing || |old(dev.responses)| < WordsConsumed(old(taps[e])))
    ensures err == 0 ==>
      && Decodable(taps[..]) && Dumped(s0, taps[..], picks + [e]) && NotBefore(taps[..], curTime')
      && Remaining(taps[..]) < Remaining(old(taps[..]))
      && !dev.failing && WordsConsumed(old(taps[e])) <= |old(dev.responses)|
      && var round := Round(old(taps[e]), e, curTime, old(dev.responses));
         && lines' == lines + round.lines
         && dev.written == old(dev.written) + round.log
         && dev.responses == old(dev.responses)[round.used..]
         && taps[..] == old(taps[..])[e := NextSample(old(taps[e]), old(dev.responses)[WordsPerSample(old(taps[e]).width)..])]
  {
    ghost var before := taps[..];
    var clock, sample;
    curTime', clock := AdvanceClock(curTime, taps[e].cycleTime);
    ghost var responses := dev.responses;
    err, sample := DumpTap(taps, e, dev);
    SampleLinesFlat(sample, before[e].signals, responses);
    TimelineStep(lines, curTime, curTime', sample);
    lines' := lines + clock + sample;
    if err != 0 {
      FailedStep(s0, before, picks, e, taps[e]);
    } else {
      DumpStep(s0, before, picks, e, taps[e]);
      AppendAssoc(lines, clock, sample);
    }
  }

  /** The merge loop: starting at cycle 0, repeatedly dumps the earliest tap with samples left,
      first advancing the clock to its cycle, and after the last sample writes one more clock
      cycle. It succeeds exactly when the merge of the taps completes with the device's
      responses and the device does not fail, or there is nothing to dump; then the lines,
      the commands sent, the responses used and the dumps are exactly those of that merge,
      closed by the final cycle. Each tap is dumped once per sample it had left, in order of
      non-decreasing cycle; the lines open no scope and carry strictly increasing times. */
  method Drain(taps: array<Tap>, dev: Device) returns (err: int, lines: seq<Line>,
                                                      ghost picks: seq<nat>, ghost times: seq<nat>)
    requires Decodable(taps[..])
    modifies taps, dev
    ensures err != 0 ==> err == dev.failCode
    ensures err == 0 <==>
      MergeFrom(old(taps[..]), old(dev.responses), 0).Some? && (!dev.failing || Finished(old(taps[..])))
    ensures Flat(lines) && Increasing(Stamps(lines))
    ensures AllProgressed(old(taps[..]), taps[..])
    ensures |picks| == |times| && Sorted(times)
    ensures err == 0 ==> Dumped(old(taps[..]), taps[..], picks) && Finished(taps[..])
    ensures err == 0 ==> forall i :: 0 <= i < taps.Length ==>
      Count(picks, i) == old(taps[..])[i].samples - old(taps[..])[i].curSample
    ensures err == 0 ==> (times == [] <==> lines == [])
    ensures err == 0 && times != [] ==> |lines| >= 4 && lines[|lines| - 4..] == Tick(times[|times| - 1])
    ensures err == 0 ==>
      var r := MergeFrom(old(taps[..]), old(dev.responses), 0);
      && r.Some? && lines == Closed(r.value) && picks == r.value.picks && times == r.value.times
      && dev.written == old(dev.written) + r.value.log
      && r.value.used <= |old(dev.responses)| && dev.responses == old(dev.responses)[r.value.used..]
  {
    var r := FindEarliest(taps);
    if r.None? {
      err, lines, picks, times := 0, [], [], [];
      DumpedFully(taps[..], taps[..], picks);
      MergeNone(taps[..], dev.responses, 0);
      assert dev.responses[0..] == dev.responses && dev.written + [] == dev.written;
      return;
    }
    var curTime;
    ghost var done;
    err, lines, curTime, done := Merge(taps, dev, r);
    picks, times := done.picks, done.times;
    if err != 0 {
      return;
    }
    DumpedFully(old(taps[..]), taps[..], picks);
    lines := FinalCycle(lines, curTime);
  }

  /** After the last sample the clock is advanced by one more cycle, which closes the
      timeline with that cycle's two edges. */
  method FinalCycle(lines: seq<Line>, curTime: nat) returns (lines': seq<Line>)
    requires Timeline(lines, curTime)
    ensures Timeline(lines', curTime + 1)
    ensures lines' == lines + Tick(curTime)
  {
    var endTime, last := AdvanceClock(curTime, curTime + 1);
    assert Ticks(curTime, curTime + 1) == Ticks(curTime, curTime) + Tick(curTime);
    TimelineStep(lines, curTime, endTime, []);
    assert lines + last + [] == lines + last;
    lines' := lines + last;
  }

  /** The state the merge loop keeps, over the taps `s0` it started from and the responses
      `resp0` and log `log0` the device had then: `earliest` is what find_earliest_tap
      answers for the taps `s`, the rounds so far are `done` (their lines `lines`, the clock
      at `curTime`), the device has answered and logged exactly those rounds, and the merge
      from `s0` is `done` followed by the merge from `s`. */
  ghost predicate Merging(s0: seq<Tap>, resp0: seq<Word>, log0: seq<Word>, s: seq<Tap>,
                          resp: seq<Word>, log: seq<Word>, earliest: Option<nat>,
                          lines: seq<Line>, curTime: nat, done: Merged)
  {
    && IsEarliest(s, earliest) && Dumped(s0, s, done.picks) && Timeline(lines, curTime)
    && (earliest.None? ==> done.times != [])
    && Rounds(done, lines, curTime) && Served(resp0, log0, resp, log, done)
    && Chained(s0, resp0, s, resp, curTime, done)
  }

  /** The rounds `done` wrote `lines`, one cycle per dump in order, the last at `curTime`. */
  ghost predicate Rounds(done: Merged, lines: seq<Line>, curTime: nat)
  {
    && |done.picks| == |done.times| && Sorted(done.times) && lines == done.lines
    && (done.times != [] ==> done.times[|done.times| - 1] == curTime)
  }

  /** The device answered the rounds `done` from `resp0` and logged their commands after `log0`. */
  ghost predicate Served(resp0: seq<Word>, log0: seq<Word>, resp: seq<Word>, log: seq<Word>, done: Merged)
  {
    done.used <= |resp0| && resp == resp0[done.used..] && log == log0 + done.log
  }

  /** The merge from `s0` is the rounds `done` followed by the merge from `s`. */
  ghost predicate Chained(s0: seq<Tap>, resp0: seq<Word>, s: seq<Tap>, resp: seq<Word>, curTime: nat, done: Merged)
  {
    && Decodable(s0) && Decodable(s) && NotBefore(s, curTime)
    && MergeFrom(s0, resp0, 0) == After(done, MergeFrom(s, resp, curTime))
  }

  /** One pass of the do-while: dump the earliest tap `e`, then look for the next one. A
      failure means the device failed or the merge from `s0` cannot complete. */
  method MergeRound(taps: array<Tap>, dev: Device, e: nat, curTime: nat, lines: seq<Line>,
                    ghost s0: seq<Tap>, ghost resp0: seq<Word>, ghost log0: seq<Word>, ghost done: Merged)
    returns (err: int, earliest: Option<nat>, curTime': nat, lines': seq<Line>, ghost done': Merged)
    requires Merging(s0, resp0, log0, taps[..], dev.responses, dev.written, Some(e), lines, curTime, done)
    modifies taps, dev
    ensures err != 0 ==>
      && err == dev.failCode && Flat(lines') && Increasing(Stamps(lines'))
      && AllProgressed(s0, taps[..]) && |done'.picks| == |done'.times| && Sorted(done'.times)
      && (dev.failing || MergeFrom(s0, resp0, 0).None?)
    ensures err == 0 ==>
      && !dev.failing
      && Merging(s0, resp0, log0, taps[..], dev.responses, dev.written, earliest, lines', curTime', done')
      && Remaining(taps[..]) < Remaining(old(taps[..]))
  {
    ghost var s, resp, log := taps[..], dev.responses, dev.written;
    earliest, done' := None, done;
    err, curTime', lines' := DumpEarliest(taps, dev, e, curTime, lines, s0, done.picks);
    if err != 0 {
      if !dev.failing {
        MergingFails(s0, resp0, log0, s, resp, log, e, lines, curTime, done);
      }
      return;
    }
    done' := Then(done, Round(s[e], e, curTime, resp));
    earliest := FindEarliest(taps);
    MergingStep(s0, resp0, log0, s, resp, log, e, lines, curTime, done,
                taps[..], dev.responses, dev.written, earliest, lines');
  }

  /** A round the device runs out of responses for leaves the merge incomplete. */
  lemma MergingFails(s0: seq<Tap>, resp0: seq<Word>, log0: seq<Word>, s: seq<Tap>, resp: seq<Word>,
                     log: seq<Word>, e: nat, lines: seq<Line>, curTime: nat, done: Merged)
    requires Merging(s0, resp0, log0, s, resp, log, Some(e), lines, curTime, done)
    requires |resp| < WordsConsumed(s[e])
    ensures MergeFrom(s0, resp0, 0).None?
  {
    MergeShort(s, resp, curTime, e);
  }

  /** A completed round of tap `e` extends the rounds done by `Round` and keeps the state. */
  lemma MergingStep(s0: seq<Tap>, resp0: seq<Word>, log0: seq<Word>, s: seq<Tap>, resp: seq<Word>,
                    log: seq<Word>, e: nat, lines: seq<Line>, curTime: nat, done: Merged,
                    s': seq<Tap>, resp': seq<Word>, log': seq<Word>, earliest: Option<nat>, lines': seq<Line>)
    requires Merging(s0, resp0, log0, s, resp, log, Some(e), lines, curTime, done)
    requires WordsConsumed(s[e]) <= |resp|
    requires s' == s[e := NextSample(s[e], resp[WordsPerSample(s[e].width)..])]
    requires Dumped(s0, s', done.picks + [e]) && IsEarliest(s', earliest)
    requires Timeline(lines', s[e].cycleTime)
    requires var round := Round(s[e], e, curTime, resp);
      lines' == lines + round.lines && log' == log + round.log && resp' == resp[round.used..]
    ensures Merging(s0, resp0, log0, s', resp', log', earliest, lines', s[e].cycleTime,
                    Then(done, Round(s[e], e, curTime, resp)))
  {
    var round := Round(s[e], e, curTime, resp);
    SortedAppend(done.times, s[e].cycleTime);
    ServedStep(resp0, log0, resp, log, done, round);
    ChainedStep(s0, resp0, s, resp, e, curTime, done);
  }

  /** The device's answers and log grow by one round. */
  lemma ServedStep(resp0: seq<Word>, log0: seq<Word>, resp: seq<Word>, log: seq<Word>, done: Merged, round: Merged)
    requires Served(resp0, log0, resp, log, done) && round.used <= |resp|
    ensures Served(resp0, log0, resp[round.used..], log + round.log, Then(done, round))
  {
    AppendAssoc(log0, done.log, round.log);
    DropTwice(resp0, done.used, round.used);
  }

  /** The merge from `s0` is the rounds done, the round of the earliest tap, then the rest. */
  lemma ChainedStep(s0: seq<Tap>, resp0: seq<Word>, s: seq<Tap>, resp: seq<Word>, e: nat, curTime: nat, done: Merged)
    requires Chained(s0, resp0, s, resp, curTime, done) && IsEarliest(s, Some(e))
    requires WordsConsumed(s[e]) <= |resp|
    ensures var t' := NextSample(s[e], resp[WordsPerSample(s[e].width)..]);
      Chained(s0, resp0, s[e := t'], resp[WordsConsumed(s[e])..], s[e].cycleTime,
              Then(done, Round(s[e], e, curTime, resp)))
  {
    var t' := NextSample(s[e], resp[WordsPerSample(s[e].width)..]);
    MergeAdvance(s, resp, curTime, e);
    AfterThen(done, Round(s[e], e, curTime, resp), MergeFrom(s[e := t'], resp[WordsConsumed(s[e])..], s[e].cycleTime));
  }

  /** The do-while of the merge loop, entered with the earliest tap `r`: dumps until no tap
      has samples left, and returns the cycle the clock stopped at. On success the rounds
      are exactly the merge from the taps it started with. */
  method Merge(taps: array<Tap>, dev: Device, r: Option<nat>)
    returns (err: int, lines: seq<Line>, curTime: nat, ghost done: Merged)
    requires Decodable(taps[..]) && IsEarliest(taps[..], r) && r.Some?
    modifies taps, dev
    ensures err != 0 ==>
      && err == dev.failCode && Flat(lines) && Increasing(Stamps(lines))
      && (dev.failing || MergeFrom(old(taps[..]), old(dev.responses), 0).None?)
    ensures AllProgressed(old(taps[..]), taps[..])
    ensures |done.picks| == |done.times| && Sorted(done.times)
    ensures err == 0 ==>
      && !dev.failing
      && Dumped(old(taps[..]), taps[..], done.picks) && Finished(taps[..]) && Decodable(taps[..])
      && Timeline(lines, curTime) && done.times != [] && done.times[|done.times| - 1] == curTime
      && MergeFrom(old(taps[..]), old(dev.responses), 0) == Some(done) && lines == done.lines
      && done.used <= |old(dev.responses)|
      && dev.written == old(dev.written) + done.log && dev.responses == old(dev.responses)[done.used..]
  {
    ghost var s0, resp0, log0 := taps[..], dev.responses, dev.written;
    lines, curTime, done := [], 0, NoRounds;
    MergingStarts(s0, resp0, log0, r);
    var earliest := r;
    while earliest.Some?
      invariant Merging(s0, resp0, log0, taps[..], dev.responses, dev.written, earliest, lines, curTime, done)
      invariant done.picks != [] ==> !dev.failing
      decreases Remaining(taps[..])
    {
      err, earliest, curTime, lines, done :=
        MergeRound(taps, dev, earliest.value, curTime, lines, s0, resp0, log0, done);
      if err != 0 {
        return;
      }
    }
    err := 0;
    MergingEnds(s0, resp0, log0, taps[..], dev.responses, dev.written, lines, curTime, done);
  }

  /** Before the first round nothing is merged yet. */
  lemma MergingStarts(s0: seq<Tap>, resp0: seq<Word>, log0: seq<Word>, r: Option<nat>)
    requires Decodable(s0) && IsEarliest(s0, r) && r.Some?
    ensures Merging(s0, resp0, log0, s0, resp0, log0, r, [], 0, NoRounds)
  {
    AfterNoRounds(MergeFrom(s0, resp0, 0));
    assert resp0[0..] == resp0;
    assert log0 + [] == log0;
  }

  /** Nothing merged before the rest leaves the rest as it is. */
  lemma AfterNoRounds(r: Option<Merged>)
    ensures After(NoRounds, r) == r
  {
    if r.Some? {
      ThenNoRounds(r.value);
    }
  }

  /** Once no tap has samples left, the rounds done are the whole merge. */
  lemma MergingEnds(s0: seq<Tap>, resp0: seq<Word>, log0: seq<Word>, s: seq<Tap>, resp: seq<Word>,
                    log: seq<Word>, lines: seq<Line>, curTime: nat, done: Merged)
    requires Merging(s0, resp0, log0, s, resp, log, None, lines, curTime, done)
    ensures MergeFrom(s0, resp0, 0) == Some(done) && Finished(s) && done.times != []
    ensures done.used <= |resp0| && resp == resp0[done.used..] && log == log0 + done.log
  {
    MergeNone(s, resp, curTime);
    ThenNoRounds(done);
  }
}

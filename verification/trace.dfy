/** Per-tap trace decoding: one captured sample is read as 64-bit data words, its bits are
    dealt to the tap's signals from the last-declared signal upwards, and each signal's
    value is written as one `b<bits> <id>` line, most significant bit first. */
module Trace {
  import opened Seqs
  import opened Protocol
  import opened Vcd

  /** A signal of a tap, with the global identifier it is declared under in the dump. */
  datatype Signal = Signal(id: nat, name: string, width: nat)

  /** The runtime state of one tap: `curSample` samples of `samples` are already dumped,
      and the next one was captured at `cycleTime`. */
  datatype Tap = Tap(id: TapId, width: nat, samples: nat, curSample: nat, cycleTime: nat,
                     path: string, signals: seq<Signal>)

  /** The summed width of the signals declared from index `i` on. */
  function WidthFrom(sigs: seq<Signal>, i: nat): nat
    decreases |sigs| - i
  {
    if i >= |sigs| then 0 else sigs[i].width + WidthFrom(sigs, i + 1)
  }

  /** Bit position of the lowest bit of signal `k`: the widths of the signals declared after it. */
  function Offset(sigs: seq<Signal>, k: nat): nat
  {
    WidthFrom(sigs, k + 1)
  }

  ghost predicate PositiveWidths(sigs: seq<Signal>)
  {
    forall k :: 0 <= k < |sigs| ==> sigs[k].width > 0
  }

  /** What decoding needs of a tap: at least one signal, none of them empty, whose widths
      add up to the tap's width. */
  ghost predicate WellFormed(t: Tap)
  {
    && |t.signals| > 0
    && PositiveWidths(t.signals)
    && WidthFrom(t.signals, 0) == t.width
  }

  /** Data words one sample of `width` bits occupies. */
  function WordsPerSample(width: nat): nat
  {
    (width + 63) / 64
  }

  /** `(word >> k) & 0x1`. */
  function Bit(word: Word, k: nat): bool
    requires k < 64
  {
    (word >> k) & 1 == 1
  }

  /** Sample bit `p` as a character: bit `p % 64` of data word `p / 64`. Only positions
      inside the words `r` are ever asked for; beyond them the answer is an arbitrary '0'. */
  function BitChar(r: seq<Word>, p: nat): char
  {
    if p / 64 < |r| then (if Bit(r[p / 64], p % 64) then '1' else '0') else '0'
  }

  /** The `w` sample bits starting at `off`, most significant first. */
  function FieldBits(r: seq<Word>, off: nat, w: nat): string
  {
    seq(w, j requires 0 <= j < w => BitChar(r, off + w - 1 - j))
  }

  /** The lines of the signals declared from index `i` on, last-declared first. */
  function Changes(sigs: seq<Signal>, i: nat, r: seq<Word>): (lines: seq<Line>)
    decreases |sigs| - i
    ensures |lines| == |sigs| - i || (i >= |sigs| && lines == [])
    ensures forall n :: 0 <= n < |lines| ==> lines[n].Change?
  {
    if i >= |sigs| then []
    else Changes(sigs, i + 1, r) + [Change(FieldBits(r, Offset(sigs, i), sigs[i].width), sigs[i].id)]
  }

  /** The lines one sample produces: the last-declared signal first, each a value change. */
  function SampleChanges(sigs: seq<Signal>, r: seq<Word>): seq<Line>
  {
    Changes(sigs, 0, r)
  }

  /** Dropping leading signals never adds width, and with nonempty signals strictly removes some. */
  lemma {:induction false} WidthFromShrinks(sigs: seq<Signal>, i: nat, j: nat)
    requires i <= j
    ensures WidthFrom(sigs, j) <= WidthFrom(sigs, i)
    ensures PositiveWidths(sigs) && i < j <= |sigs| ==> WidthFrom(sigs, j) < WidthFrom(sigs, i)
    decreases j - i
  {
    if i < j {
      WidthFromShrinks(sigs, i + 1, j);
    }
  }

  /** Line `n` of a sample is the value of signal `k = |sigs| - 1 - n`: its width's worth of
      bits from its offset up, most significant first. */
  lemma {:induction false} SampleChangesAt(sigs: seq<Signal>, r: seq<Word>, n: nat)
    requires n < |sigs|
    ensures var k := |sigs| - 1 - n;
      SampleChanges(sigs, r)[n] == Change(FieldBits(r, Offset(sigs, k), sigs[k].width), sigs[k].id)
    ensures var k := |sigs| - 1 - n; var bits := SampleChanges(sigs, r)[n].bits;
      |bits| == sigs[k].width &&
      forall j :: 0 <= j < |bits| ==> bits[j] == BitChar(r, Offset(sigs, k) + sigs[k].width - 1 - j)
  {
    ChangesAt(sigs, 0, r, n);
  }

  lemma {:induction false} ChangesAt(sigs: seq<Signal>, i: nat, r: seq<Word>, n: nat)
    requires i + n < |sigs|
    ensures var k := |sigs| - 1 - n;
      Changes(sigs, i, r)[n] == Change(FieldBits(r, Offset(sigs, k), sigs[k].width), sigs[k].id)
    decreases |sigs| - i
  {
    if i + n < |sigs| - 1 {
      ChangesAt(sigs, i + 1, r, n);
    }
  }

  /** The lines of the signals from `j` on are the first lines of those from `i` on:
      a sample's output is produced front to back. */
  lemma {:induction false} ChangesPrefix(sigs: seq<Signal>, r: seq<Word>, i: nat, j: nat)
    requires i <= j
    ensures Changes(sigs, j, r) <= Changes(sigs, i, r)
    decreases j - i
  {
    if i < j {
      ChangesPrefix(sigs, r, i + 1, j);
    }
  }

  /** The signal values read in declaration order, concatenated. */
  function DeclOrderBits(lines: seq<Line>): string
    requires forall n :: 0 <= n < |lines| ==> lines[n].Change?
  {
    if lines == [] then "" else lines[|lines| - 1].bits + DeclOrderBits(lines[..|lines| - 1])
  }

  /** The `w` lowest sample bits, most significant first. */
  function MsbFirst(r: seq<Word>, w: nat): string
  {
    FieldBits(r, 0, w)
  }

  /** The signal values, read in declaration order, spell the sample's bits most significant
      first: the first-declared signal holds the top bits and the last-declared the bottom
      ones, with no bit skipped or used twice. */
  lemma SampleSplitsBits(sigs: seq<Signal>, r: seq<Word>)
    ensures DeclOrderBits(SampleChanges(sigs, r)) == MsbFirst(r, WidthFrom(sigs, 0))
  {
    ChangesSplitBits(sigs, r, 0);
  }

  lemma {:induction false} ChangesSplitBits(sigs: seq<Signal>, r: seq<Word>, i: nat)
    ensures DeclOrderBits(Changes(sigs, i, r)) == MsbFirst(r, WidthFrom(sigs, i))
    decreases |sigs| - i
  {
    if i < |sigs| {
      var off := Offset(sigs, i);
      var w := sigs[i].width;
      var whole := Changes(sigs, i, r);
      assert whole[..|whole| - 1] == Changes(sigs, i + 1, r);
      ChangesSplitBits(sigs, r, i + 1);
      assert FieldBits(r, off, w) + FieldBits(r, 0, off) == FieldBits(r, 0, off + w);
    }
  }

  /** The index of the signal holding sample bit `p`. */
  function FieldOf(sigs: seq<Signal>, i: nat, p: nat): (k: nat)
    requires p < WidthFrom(sigs, i)
    ensures i <= k < |sigs| && Offset(sigs, k) <= p < Offset(sigs, k) + sigs[k].width
    decreases |sigs| - i
  {
    if p >= Offset(sigs, i) then i else FieldOf(sigs, i + 1, p)
  }

  /** A later-declared signal lies entirely below an earlier-declared one. */
  lemma OffsetsDecrease(sigs: seq<Signal>, k: nat, k': nat)
    requires k < k' < |sigs|
    ensures Offset(sigs, k') + sigs[k'].width <= Offset(sigs, k)
  {
    WidthFromShrinks(sigs, k + 1, k');
  }

  /** Every bit position of a sample belongs to exactly one signal. */
  lemma FieldsTile(sigs: seq<Signal>, p: nat)
    requires p < WidthFrom(sigs, 0)
    ensures exists k :: 0 <= k < |sigs| && Offset(sigs, k) <= p < Offset(sigs, k) + sigs[k].width
    ensures forall k, k' ::
      (0 <= k < |sigs| && 0 <= k' < |sigs| &&
       Offset(sigs, k) <= p < Offset(sigs, k) + sigs[k].width &&
       Offset(sigs, k') <= p < Offset(sigs, k') + sigs[k'].width) ==> k == k'
  {
    var k := FieldOf(sigs, 0, p);
    forall k, k' | 0 <= k < k' < |sigs|
      ensures Offset(sigs, k') + sigs[k'].width <= Offset(sigs, k)
    {
      OffsetsDecrease(sigs, k, k');
    }
  }

  /** Sample bit `x` lies in data word `n` when `64n <= x < 64(n+1)`. */
  lemma WordPosition(x: nat, n: nat)
    requires 64 * n <= x < 64 * (n + 1)
    ensures x / 64 == n && x % 64 == x - 64 * n
  {
  }

  /** Having consumed `x` bits, the last of them in word `n`, the word is used up exactly
      when `x` is a multiple of 64, and `x` bits take `n + 1` words. */
  lemma WordBoundary(x: nat, n: nat)
    requires 64 * n < x <= 64 * (n + 1)
    ensures x % 64 == 0 <==> x == 64 * (n + 1)
    ensures WordsPerSample(x) == n + 1
  {
    if x < 64 * (n + 1) {
      WordPosition(x, n);
    }
  }

  // ----- dump_tap -----

  /** dump_tap's locals inside a sample: signal `m` (an index in declaration order; the
      source walks the signals backwards) is being filled, `signalOffset` of its bits are
      already in `buf`, and `sampleOffset` bits of the sample are consumed. */
  datatype Cursor = Cursor(m: nat, signalOffset: nat, sampleOffset: nat, buf: seq<char>)

  /** A consistent position in a sample whose words are the prefix of `r`: the signals after
      `m` are complete and emitted as `lines`, and the low `signalOffset` bits of signal `m`
      sit, most significant first, at the end of its first `width` buffer positions. */
  ghost predicate Dealing(c: Cursor, sigs: seq<Signal>, width: nat, r: seq<Word>, lines: seq<Line>)
  {
    && c.m < |sigs|
    && c.signalOffset < sigs[c.m].width
    && c.sampleOffset == Offset(sigs, c.m) + c.signalOffset
    && Offset(sigs, c.m) + sigs[c.m].width <= width
    && |c.buf| == width
    && Filled(c.buf, r, Offset(sigs, c.m), sigs[c.m].width, c.signalOffset)
    && lines == Changes(sigs, c.m + 1, r)
  }

  /** The low `so` bits of the `w`-bit field at `off` sit, most significant first, at the end
      of the first `w` positions of `buf`. */
  ghost predicate Filled(buf: seq<char>, r: seq<Word>, off: nat, w: nat, so: nat)
  {
    so <= w <= |buf| && forall j :: w - so <= j < w ==> buf[j] == BitChar(r, off + w - 1 - j)
  }

  /** Writing the bit at signal offset `so` into position `w - so - 1` extends the filled,
      most-significant-first tail of the signal's buffer by one character. */
  lemma BufStep(buf: seq<char>, buf': seq<char>, r: seq<Word>, off: nat, w: nat, so: nat)
    requires so < w && Filled(buf, r, off, w, so)
    requires buf' == buf[w - so - 1 := BitChar(r, off + so)]
    ensures |buf'| == |buf| && Filled(buf', r, off, w, so + 1)
  {
  }

  /** Storing the next bit of a signal that is not yet full keeps the position consistent. */
  lemma BitStep(c: Cursor, buf': seq<char>, sigs: seq<Signal>, width: nat, r: seq<Word>, lines: seq<Line>)
    requires Dealing(c, sigs, width, r, lines)
    requires c.signalOffset + 1 < sigs[c.m].width
    requires buf' == c.buf[sigs[c.m].width - c.signalOffset - 1 := BitChar(r, c.sampleOffset)]
    ensures Dealing(Cursor(c.m, c.signalOffset + 1, c.sampleOffset + 1, buf'), sigs, width, r, lines)
  {
    BufStep(c.buf, buf', r, Offset(sigs, c.m), sigs[c.m].width, c.signalOffset);
  }

  /** Storing the last bit of signal `m` completes its value: the emitted lines grow by it. */
  lemma SignalComplete(c: Cursor, buf': seq<char>, sigs: seq<Signal>, width: nat, r: seq<Word>,
                       lines: seq<Line>)
    requires Dealing(c, sigs, width, r, lines)
    requires c.signalOffset + 1 == sigs[c.m].width
    requires buf' == c.buf[sigs[c.m].width - c.signalOffset - 1 := BitChar(r, c.sampleOffset)]
    ensures lines + [Change(buf'[..sigs[c.m].width], sigs[c.m].id)] == Changes(sigs, c.m, r)
    ensures c.sampleOffset + 1 == WidthFrom(sigs, c.m)
  {
    BufStep(c.buf, buf', r, Offset(sigs, c.m), sigs[c.m].width, c.signalOffset);
    assert buf'[..sigs[c.m].width] == FieldBits(r, Offset(sigs, c.m), sigs[c.m].width);
  }

  /** The buffer position dump_tap clears once signal `m` is full, to end the string it
      prints, lies inside the buffer of the tap's width: the signal is narrower than the
      whole sample. */
  predicate TerminatorFits(t: Tap, m: nat)
    requires m < |t.signals|
  {
    t.signals[m].width < t.width
  }

  /** The clearing write lands one past the end of the buffer exactly for a tap with a single
      signal; with two or more signals every one of them is narrower than the sample. */
  lemma TerminatorOverflows(t: Tap, m: nat)
    requires WellFormed(t) && m < |t.signals|
    ensures !TerminatorFits(t, m) <==> |t.signals| == 1
  {
    WidthFromShrinks(t.signals, 0, m);
    WidthFromShrinks(t.signals, m + 1, |t.signals|);
  }

  /** Once signal `m` is out, the sample is complete exactly when `m` was the first-declared
      signal, i.e. when all `width` bits are consumed. */
  lemma SampleComplete(sigs: seq<Signal>, width: nat, m: nat)
    requires PositiveWidths(sigs) && WidthFrom(sigs, 0) == width
    requires m < |sigs|
    ensures WidthFrom(sigs, m) == width <==> m == 0
  {
    WidthFromShrinks(sigs, 0, m);
  }

  /** After signal `m > 0` is out, signal `m - 1` starts right above it, with an empty buffer tail. */
  lemma NextSignal(sigs: seq<Signal>, width: nat, r: seq<Word>, buf: seq<char>, m: nat, lines: seq<Line>)
    requires PositiveWidths(sigs) && WidthFrom(sigs, 0) == width
    requires 0 < m < |sigs| && |buf| == width
    requires lines == Changes(sigs, m, r)
    ensures Dealing(Cursor(m - 1, 0, WidthFrom(sigs, m), buf), sigs, width, r, lines)
  {
    WidthFromShrinks(sigs, 0, m - 1);
  }

  /** One step of dump_tap's inner loop: bit `c.sampleOffset` of the sample, taken from the
      data word `word` (word `nw - 1`), goes into the buffer of signal `c.m`; a full signal is
      emitted, and when it was the first-declared one the sample is complete. */
  method DealBit(sigs: seq<Signal>, width: nat, word: Word, c: Cursor, lines: seq<Line>,
                 ghost r: seq<Word>, ghost nw: nat)
    returns (c': Cursor, lines': seq<Line>, sampleDone: bool)
    requires PositiveWidths(sigs) && WidthFrom(sigs, 0) == width
    requires 1 <= nw <= |r| && word == r[nw - 1]
    requires 64 * (nw - 1) <= c.sampleOffset < 64 * nw && c.sampleOffset < width
    requires Dealing(c, sigs, width, r, lines)
    ensures sampleDone ==> lines' == SampleChanges(sigs, r) && nw == WordsPerSample(width)
    ensures !sampleDone ==>
      && Dealing(c', sigs, width, r, lines') && c'.sampleOffset == c.sampleOffset + 1
      && c'.sampleOffset < width
  {
    var signalWidth := sigs[c.m].width;
    WordPosition(c.sampleOffset, nw - 1);
    var bit := if Bit(word, c.sampleOffset % 64) then '1' else '0';
    assert bit == BitChar(r, c.sampleOffset);
    var buf := c.buf[signalWidth - c.signalOffset - 1 := bit];
    c', lines', sampleDone := c, lines, false;
    if c.signalOffset + 1 == signalWidth {
      SignalComplete(c, buf, sigs, width, r, lines);
      SampleComplete(sigs, width, c.m);
      lines' := lines + [Change(buf[..signalWidth], sigs[c.m].id)];
      if c.sampleOffset + 1 == width {
        // end of sample: every signal is out
        WordBoundary(c.sampleOffset + 1, nw - 1);
        sampleDone := true;
        return;
      }
      NextSignal(sigs, width, r, buf, c.m, lines');
      c' := Cursor(c.m - 1, 0, c.sampleOffset + 1, buf);
    } else {
      BitStep(c, buf, sigs, width, r, lines);
      c' := Cursor(c.m, c.signalOffset + 1, c.sampleOffset + 1, buf);
    }
  }

  /** The inner loop of dump_tap: deals the bits of data word `word` (word `nw - 1` of the
      sample) to the signals, emitting each signal as it fills, until the word is used up
      or the sample is complete. */
  method DealWord(sigs: seq<Signal>, width: nat, word: Word, c: Cursor, lines: seq<Line>,
                  ghost r: seq<Word>, ghost nw: nat)
    returns (c': Cursor, lines': seq<Line>, sampleDone: bool)
    requires PositiveWidths(sigs) && WidthFrom(sigs, 0) == width
    requires 1 <= nw <= |r| && word == r[nw - 1]
    requires c.sampleOffset == 64 * (nw - 1) < width
    requires Dealing(c, sigs, width, r, lines)
    ensures sampleDone ==> lines' == SampleChanges(sigs, r) && nw == WordsPerSample(width)
    ensures !sampleDone ==> Dealing(c', sigs, width, r, lines') && c'.sampleOffset == 64 * nw < width
  {
    c', lines' := c, lines;
    while true
      invariant 64 * (nw - 1) <= c'.sampleOffset < 64 * nw && c'.sampleOffset < width
      invariant Dealing(c', sigs, width, r, lines')
      decreases width - c'.sampleOffset
    {
      ghost var x := c'.sampleOffset + 1;
      c', lines', sampleDone := DealBit(sigs, width, word, c', lines', r, nw);
      if sampleDone {
        return;
      }
      WordBoundary(x, nw - 1);
      if c'.sampleOffset % 64 == 0 {
        break;
      }
    }
    sampleDone := false;
  }

  /** The tap after one sample is dumped: one more sample done and, when another follows,
      the clock moved on by one cycle plus the next response word, the delta. */
  function NextSample(t: Tap, rest: seq<Word>): (t': Tap)
    requires t.curSample + 1 != t.samples ==> rest != []
    ensures t'.curSample == t.curSample + 1
    ensures t'.cycleTime > t.cycleTime <==> t.curSample + 1 != t.samples
    ensures t' == t.(curSample := t'.curSample, cycleTime := t'.cycleTime)
  {
    if t.curSample + 1 != t.samples
    then t.(curSample := t.curSample + 1, cycleTime := t.cycleTime + 1 + rest[0] as nat)
    else t.(curSample := t.curSample + 1)
  }

  /** Words one call consumes: the sample's data words, then a delta word unless the
      sample was the tap's last. */
  function WordsConsumed(t: Tap): nat
  {
    WordsPerSample(t.width) + (if t.curSample + 1 != t.samples then 1 else 0)
  }

  /** dump_tap: drains exactly one sample of tap `e` from the device, returning its lines.
      Every word is fetched with the tap's GET_DATA command; a failing exchange stops the
      call with the device's status, leaving the lines already produced. */
  method DumpTap(taps: array<Tap>, e: nat, dev: Device) returns (err: int, lines: seq<Line>)
    requires e < taps.Length && WellFormed(taps[e])
    requires taps[e].curSample < taps[e].samples
    modifies taps, dev
    ensures err == 0 <==> !dev.failing && WordsConsumed(old(taps[e])) <= |old(dev.responses)|
    ensures err != 0 ==> err == dev.failCode
    ensures err == 0 ==>
      && lines == SampleChanges(old(taps[e]).signals, old(dev.responses))
      && dev.responses == old(dev.responses)[WordsConsumed(old(taps[e]))..]
      && dev.written == old(dev.written) +
           Repeat(Command(GET_DATA, old(taps[e]).id), WordsConsumed(old(taps[e])))
      && taps[..] == old(taps[..])[e := NextSample(old(taps[e]), old(dev.responses)[WordsPerSample(old(taps[e]).width)..])]
    ensures err != 0 ==>
      && lines <= SampleChanges(old(taps[e]).signals, old(dev.responses))
      && taps[..] == old(taps[..])[e := taps[e]]
      && taps[e] == old(taps[e]).(curSample := taps[e].curSample)
      && old(taps[e]).curSample <= taps[e].curSample <= old(taps[e]).curSample + 1
  {
    var t := taps[e];
    var cmd := Command(GET_DATA, t.id);
    ghost var r := dev.responses;
    ghost var log := dev.written;
    err, lines := ReadSample(t.signals, t.width, cmd, dev);
    if err != 0 {
      assert taps[..] == old(taps[..]);
      return;
    }
    var t';
    err, t' := EndSample(t, dev, cmd, r, log);
    taps[e] := t';
  }

  /** The sample-reading loop of dump_tap: fetches the sample's data words with `cmd` one by
      one and deals each to the signals, last-declared first. */
  method ReadSample(sigs: seq<Signal>, width: nat, cmd: Word, dev: Device) returns (err: int, lines: seq<Line>)
    requires |sigs| > 0 && PositiveWidths(sigs) && WidthFrom(sigs, 0) == width
    modifies dev
    ensures err == 0 <==> !dev.failing && WordsPerSample(width) <= |old(dev.responses)|
    ensures err != 0 ==>
      && err == dev.failCode
      && lines <= SampleChanges(sigs, old(dev.responses))
    ensures err == 0 ==>
      && lines == SampleChanges(sigs, old(dev.responses))
      && dev.responses == old(dev.responses)[WordsPerSample(width)..]
      && dev.written == old(dev.written) + Repeat(cmd, WordsPerSample(width))
  {
    ghost var r := dev.responses;
    ghost var log := dev.written;
    ghost var nw: nat := 0;
    var c := Cursor(|sigs| - 1, 0, 0, seq(width, _ => '0'));
    WidthFromShrinks(sigs, 0, |sigs| - 1);
    lines := [];
    while true
      invariant c.sampleOffset == 64 * nw < width
      invariant |r| >= nw && dev.responses == r[nw..] && dev.written == log + Repeat(cmd, nw)
      invariant Dealing(c, sigs, width, r, lines)
      decreases width - c.sampleOffset
    {
      var word;
      err, word := dev.Query(cmd);
      if err != 0 {
        ChangesPrefix(sigs, r, 0, c.m + 1);
        return;
      }
      nw := nw + 1;
      var sampleDone;
      c, lines, sampleDone := DealWord(sigs, width, word, c, lines, r, nw);
      if sampleDone {
        err := 0;
        return;
      }
    }
  }

  /** End of a sample in dump_tap, once the sample's data words are read from the responses
      `r`: count the sample and, unless it was the last, fetch the delta word and move the
      tap's clock on by one cycle plus the delta. Returns the tap record as updated. */
  method EndSample(t: Tap, dev: Device, cmd: Word, ghost r: seq<Word>, ghost log: seq<Word>)
    returns (err: int, t': Tap)
    requires t.curSample < t.samples
    requires WordsPerSample(t.width) <= |r| && !dev.failing
    requires dev.responses == r[WordsPerSample(t.width)..]
    requires dev.written == log + Repeat(cmd, WordsPerSample(t.width))
    modifies dev
    ensures err == 0 <==> WordsConsumed(t) <= |r|
    ensures err != 0 ==> err == dev.failCode && t' == t.(curSample := t.curSample + 1)
    ensures err == 0 ==>
      && dev.responses == r[WordsConsumed(t)..]
      && dev.written == log + Repeat(cmd, WordsConsumed(t))
      && t' == NextSample(t, r[WordsPerSample(t.width)..])
  {
    ghost var n := WordsPerSample(t.width);
    t' := t.(curSample := t.curSample + 1);
    err := 0;
    if t'.curSample != t'.samples {
      var word;
      err, word := dev.Query(cmd);
      if err != 0 {
        return;
      }
      DropOne(r, n);
      t' := t'.(cycleTime := t'.cycleTime + 1 + word as nat);
    }
  }
}

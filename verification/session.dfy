/** The capture session: starting a capture checks the manifest against the device and
    configures every tap; stopping it reads the trace back and writes the waveform. */
module Session {
  import opened Wrappers
  import opened Seqs
  import opened Protocol
  import opened Vcd
  import opened Trace
  import opened Timeline
  import opened Header

  /** A signal as the manifest lists it. */
  datatype SignalSpec = SignalSpec(name: string, width: nat)

  /** A tap as the manifest lists it: its id, its 32-bit sample width, its module path and its
      signals in declaration order. */
  datatype TapSpec = TapSpec(id: TapId, width: bv32, path: string, signals: seq<SignalSpec>)

  /** The all-ones time word: no stop, or no start, time was given. */
  const NO_TIME: Word := 0xFFFF_FFFF_FFFF_FFFF

  // ----- the manifest -----

  /** The summed width of the listed signals from index `k` on. */
  function ListedWidth(sigs: seq<SignalSpec>, k: nat): nat
    decreases |sigs| - k
  {
    if k >= |sigs| then 0 else sigs[k].width + ListedWidth(sigs, k + 1)
  }

  /** What the session takes for granted of the manifest without checking it: each tap lists
      a signal or more, none of them empty, whose widths add up to the tap's width, and its
      path names at least one module. The first two conditions are needed only by a tap that holds
      samples, but they are required of every tap. */
  ghost predicate Consistent(specs: seq<TapSpec>)
  {
    forall i :: 0 <= i < |specs| ==>
      && |specs[i].signals| > 0
      && (forall j :: 0 <= j < |specs[i].signals| ==> specs[i].signals[j].width > 0)
      && ListedWidth(specs[i].signals, 0) == specs[i].width as nat
      && SplitSpec(specs[i].path, '.') != []
  }

  /** The number of signals the first `i` taps list. */
  function SignalsBefore(specs: seq<TapSpec>, i: nat): nat
    requires i <= |specs|
  {
    if i == 0 then 0 else SignalsBefore(specs, i - 1) + |specs[i - 1].signals|
  }

  /** The listed signals numbered consecutively from `first`. */
  function Numbered(sigs: seq<SignalSpec>, first: nat): (r: seq<Signal>)
    ensures |r| == |sigs|
    ensures forall j :: 0 <= j < |sigs| ==> r[j] == Signal(first + j, sigs[j].name, sigs[j].width)
  {
    if sigs == [] then []
    else Numbered(sigs[..|sigs| - 1], first)
         + [Signal(first + |sigs| - 1, sigs[|sigs| - 1].name, sigs[|sigs| - 1].width)]
  }

  /** The tap record for a manifest entry, nothing captured yet, its signals numbered
      from `first`. */
  function NewTap(spec: TapSpec, first: nat): Tap
  {
    Tap(spec.id, spec.width as nat, 0, 0, 0, spec.path, Numbered(spec.signals, first))
  }

  /** The tap records for the first `n` manifest entries: signal ids run 1, 2, 3, ... across
      the taps in manifest order, id 0 being the clock's. */
  function TapsUpTo(specs: seq<TapSpec>, n: nat): (ts: seq<Tap>)
    requires n <= |specs|
    ensures |ts| == n
    ensures forall k {:trigger ts[k]} :: 0 <= k < n ==> ts[k] == NewTap(specs[k], 1 + SignalsBefore(specs, k))
  {
    if n == 0 then [] else TapsUpTo(specs, n - 1) + [NewTap(specs[n - 1], 1 + SignalsBefore(specs, n - 1))]
  }

  /** The tap records for the whole manifest. */
  function ManifestTaps(specs: seq<TapSpec>): seq<Tap>
  {
    TapsUpTo(specs, |specs|)
  }

  /** Numbers the signals a tap lists, handing out ids from `first` on. */
  method NumberSignals(sigs: seq<SignalSpec>, first: nat) returns (signals: seq<Signal>)
    ensures signals == Numbered(sigs, first)
  {
    signals := [];
    var signalId := first;
    for j := 0 to |sigs|
      invariant signals == Numbered(sigs[..j], first) && signalId == first + j
    {
      assert sigs[..j + 1][..j] == sigs[..j];
      signals := signals + [Signal(signalId, sigs[j].name, sigs[j].width)];
      signalId := signalId + 1;
    }
    assert sigs[..|sigs|] == sigs;
  }

  /** Builds the tap records in one pass over the manifest, with a running signal id. */
  method LoadManifest(specs: seq<TapSpec>) returns (taps: seq<Tap>)
    ensures taps == ManifestTaps(specs)
  {
    taps := [];
    var signalId := 1;
    for i := 0 to |specs|
      invariant taps == TapsUpTo(specs, i) && signalId == 1 + SignalsBefore(specs, i)
    {
      var spec := specs[i];
      var signals := NumberSignals(spec.signals, signalId);
      signalId := signalId + |spec.signals|;
      taps := taps + [Tap(spec.id, spec.width as nat, 0, 0, 0, spec.path, signals)];
    }
  }

  lemma {:induction false} SignalsBeforeGrows(specs: seq<TapSpec>, a: nat, b: nat)
    requires a <= b <= |specs|
    ensures SignalsBefore(specs, a) <= SignalsBefore(specs, b)
    decreases b - a
  {
    if a < b {
      SignalsBeforeGrows(specs, a, b - 1);
    }
  }

  /** Every signal of the manifest gets its own id, and none gets the clock's id 0. */
  lemma SignalIdsDistinct(specs: seq<TapSpec>, i: nat, j: nat, i': nat, j': nat)
    requires i < |specs| && j < |specs[i].signals|
    requires i' < |specs| && j' < |specs[i'].signals|
    ensures ManifestTaps(specs)[i].signals[j].id != 0
    ensures ManifestTaps(specs)[i].signals[j].id == ManifestTaps(specs)[i'].signals[j'].id
            ==> i == i' && j == j'
  {
    if i < i' {
      SignalsBeforeGrows(specs, i + 1, i');
    } else if i' < i {
      SignalsBeforeGrows(specs, i' + 1, i);
    }
  }

  lemma {:induction false} WidthsAgree(spec: TapSpec, first: nat, k: nat)
    ensures WidthFrom(NewTap(spec, first).signals, k) == ListedWidth(spec.signals, k)
    decreases |spec.signals| - k
  {
    if k < |spec.signals| {
      WidthsAgree(spec, first, k + 1);
    }
  }

  /** A consistent manifest gives tap records that can be decoded and named. */
  lemma ManifestDecodable(specs: seq<TapSpec>)
    requires Consistent(specs)
    ensures forall i :: 0 <= i < |specs| ==> WellFormed(ManifestTaps(specs)[i])
    ensures Named(ManifestTaps(specs))
  {
    var ts := ManifestTaps(specs);
    forall i | 0 <= i < |specs|
      ensures WellFormed(ts[i]) && Tokens(ts[i]) != []
    {
      WidthsAgree(specs[i], 1 + SignalsBefore(specs, i), 0);
    }
  }

  // ----- commands to every tap -----

  /** The configuration command `op` with payload `value`, once for each tap of the manifest. */
  function PerTap(specs: seq<TapSpec>, op: Word, value: Word): (cmds: seq<Word>)
    requires op < 8
    ensures |cmds| == |specs|
    ensures forall i :: 0 <= i < |specs| ==> cmds[i] == ConfigCommand(op, specs[i].id, value)
  {
    if specs == [] then []
    else PerTap(specs[..|specs| - 1], op, value) + [ConfigCommand(op, specs[|specs| - 1].id, value)]
  }

  /** The depth command, once for each tap of the manifest. */
  function DepthWrites(specs: seq<TapSpec>, depth: bv32): (cmds: seq<Word>)
    ensures |cmds| == |specs|
    ensures forall i :: 0 <= i < |specs| ==> cmds[i] == DepthCommand(depth, specs[i].id)
  {
    if specs == [] then []
    else DepthWrites(specs[..|specs| - 1], depth) + [DepthCommand(depth, specs[|specs| - 1].id)]
  }

  /** Writes `cmds` in order, each checked: the first failure is returned. */
  method WriteAll(dev: Device, cmds: seq<Word>) returns (err: int)
    modifies dev
    ensures err == 0 <==> !dev.failing || cmds == []
    ensures err != 0 ==> err == dev.failCode
    ensures dev.written == (if err == 0 then old(dev.written) + cmds else old(dev.written))
    ensures dev.responses == old(dev.responses)
  {
    for i := 0 to |cmds|
      invariant dev.written == old(dev.written) + cmds[..i]
      invariant dev.responses == old(dev.responses)
      invariant i > 0 ==> !dev.failing
    {
      err := dev.Write(cmds[i]);
      if err != 0 {
        return;
      }
      PrefixGrows(cmds, i);
      AppendAssoc(old(dev.written), cmds[..i], [cmds[i]]);
    }
    assert cmds[..|cmds|] == cmds;
    err := 0;
  }

  // ----- width validation -----

  /** The device reports width `reported` for a tap of manifest width `width`: the 32-bit
      width is compared with the 64-bit word zero-extended. */
  predicate Matches(reported: Word, width: bv32)
  {
    reported == width as Word
  }

  /** The first tap from `i` on whose width query finds no answer left in `resp`, or an
      answer other than its manifest width; `|specs|` when every tap matches. */
  function MismatchFrom(specs: seq<TapSpec>, resp: seq<Word>, i: nat): (k: nat)
    requires i <= |specs|
    ensures i <= k <= |specs|
    ensures i < k ==> k <= |resp|
    ensures forall j :: i <= j < k ==> Matches(resp[j], specs[j].width)
    ensures k < |specs| ==> k >= |resp| || !Matches(resp[k], specs[k].width)
    decreases |specs| - i
  {
    if i == |specs| || i >= |resp| || !Matches(resp[i], specs[i].width) then i
    else MismatchFrom(specs, resp, i + 1)
  }

  /** The scan for a mismatch stops at `i` exactly when tap `i` finds no answer or a wrong one. */
  lemma MismatchStops(specs: seq<TapSpec>, resp: seq<Word>, i: nat)
    requires i < |specs| && i <= MismatchFrom(specs, resp, 0)
    ensures MismatchFrom(specs, resp, 0) == i <==> i >= |resp| || !Matches(resp[i], specs[i].width)
  {
  }

  /** The width queries the width validation writes: up to and including the first mismatch. */
  function Asked(specs: seq<TapSpec>, resp: seq<Word>): (n: nat)
    ensures n <= |specs|
  {
    var k := MismatchFrom(specs, resp, 0);
    if k < |specs| then k + 1 else k
  }

  /** The width check of start: queries each tap's width in manifest order and stops at the
      first failed exchange, answering its error, or at the first mismatch, answering 1. */
  method ValidateWidths(dev: Device, specs: seq<TapSpec>) returns (err: int)
    modifies dev
    ensures var k := MismatchFrom(specs, old(dev.responses), 0);
      && (err == 0 <==> specs == [] || (!dev.failing && k == |specs|))
      && (!dev.failing && k < |specs| && k < |old(dev.responses)| ==> err == 1)
      && (err != 0 && (dev.failing || k >= |old(dev.responses)|) ==> err == dev.failCode)
    ensures dev.failing ==> dev.written == old(dev.written) && dev.responses == old(dev.responses)
    ensures !dev.failing ==>
      var n := Asked(specs, old(dev.responses));
      && dev.written == old(dev.written) + PerTap(specs, GET_WIDTH, 0)[..n]
      && dev.responses == old(dev.responses)[if n <= |old(dev.responses)| then n else |old(dev.responses)|..]
  {
    ghost var resp := dev.responses;
    ghost var k := MismatchFrom(specs, resp, 0);
    ghost var queries := PerTap(specs, GET_WIDTH, 0);
    for i := 0 to |specs|
      invariant i <= k
      invariant dev.written == old(dev.written) + queries[..i]
      invariant i <= |resp| && dev.responses == resp[i..]
      invariant i > 0 ==> !dev.failing
    {
      MismatchStops(specs, resp, i);
      var reported;
      err, reported := dev.Query(Command(GET_WIDTH, specs[i].id));
      PrefixGrows(queries, i);
      AppendAssoc(old(dev.written), queries[..i], [queries[i]]);
      if err != 0 {
        return;
      }
      if !Matches(reported, specs[i].width) {
        return 1;
      }
      assert resp[i..][1..] == resp[i + 1..];
    }
    err := 0;
  }

  // ----- trace info -----

  /** What loading a tap's trace info does with the responses `resp`: the sample count, and
      for a nonzero count the start and the delta words. None when the responses run out;
      otherwise the tap with its sample count and first cycle set, and the words read. */
  function Info(t: Tap, resp: seq<Word>): (r: Option<(Tap, nat)>)
    ensures r.Some? ==> 1 <= r.value.1 <= |resp|
    ensures r.Some? ==>
      r.value.0 == t.(samples := r.value.0.samples, cycleTime := r.value.0.cycleTime)
    ensures r.None? <==> resp == [] || (resp[0] != 0 && |resp| < 3)
  {
    if resp == [] then None
    else if resp[0] == 0 then Some((t, 1))
    else if |resp| < 3 then None
    else Some((t.(samples := Low32(resp[0] as nat), cycleTime := 1 + resp[1] as nat + resp[2] as nat), 3))
  }

  /** The low 32 bits of a count: the count word is stored in a 32-bit field. */
  function Low32(count: nat): (n: nat)
    ensures n < 0x1_0000_0000
    ensures count < 0x1_0000_0000 ==> n == count
  {
    count % 0x1_0000_0000
  }

  /** The queries for a tap that reads `n` words: the count, then the start and the delta. */
  function InfoQueries(id: TapId, n: nat): (cmds: seq<Word>)
    ensures |cmds| == (if n == 1 then 1 else 3)
    ensures cmds[0] == Command(GET_COUNT, id)
  {
    if n == 1 then [Command(GET_COUNT, id)]
    else [Command(GET_COUNT, id), Command(GET_START, id), Command(GET_DATA, id)]
  }

  /** Loading the trace info of the taps `s` in order from the responses `resp`: None when
      the responses run out; otherwise the updated taps and the commands written, one per
      word read. */
  function LoadAll(s: seq<Tap>, resp: seq<Word>): (r: Option<(seq<Tap>, seq<Word>)>)
    ensures r.Some? ==> |r.value.0| == |s| && |r.value.1| <= |resp|
  {
    if s == [] then Some(([], []))
    else
      match LoadAll(s[..|s| - 1], resp)
      case None => None
      case Some((ts, log)) =>
        match Info(s[|s| - 1], resp[|log|..])
        case None => None
        case Some((t, n)) => Some((ts + [t], log + InfoQueries(s[|s| - 1].id, n)))
  }

  /** Once the responses run out for a prefix of the taps, they run out for all of them. */
  lemma {:induction false} LoadAllShort(s: seq<Tap>, resp: seq<Word>, i: nat)
    requires i <= |s| && LoadAll(s[..i], resp).None?
    ensures LoadAll(s, resp).None?
    decreases |s| - i
  {
    if i < |s| {
      assert s[..i + 1][..i] == s[..i];
      LoadAllShort(s, resp, i + 1);
    } else {
      assert s[..i] == s;
    }
  }

  /** Loading trace info changes only the taps' sample counts and first cycles. */
  lemma {:induction false} LoadedShape(s: seq<Tap>, resp: seq<Word>)
    requires LoadAll(s, resp).Some?
    ensures forall i :: 0 <= i < |s| ==>
      LoadAll(s, resp).value.0[i] == s[i].(samples := LoadAll(s, resp).value.0[i].samples,
                                             cycleTime := LoadAll(s, resp).value.0[i].cycleTime)
  {
    if s != [] {
      var init := s[..|s| - 1];
      LoadedShape(init, resp);
      var ts := LoadAll(s, resp).value.0;
      assert ts[..|s| - 1] == LoadAll(init, resp).value.0;
      forall i | 0 <= i < |s|
        ensures ts[i] == s[i].(samples := ts[i].samples, cycleTime := ts[i].cycleTime)
      {
        if i < |s| - 1 {
          assert ts[i] == LoadAll(init, resp).value.0[i] && s[i] == init[i];
        }
      }
    }
  }

  /** Taps built from a consistent manifest stay decodable and named once loaded. */
  lemma LoadedDecodable(specs: seq<TapSpec>, resp: seq<Word>)
    requires Consistent(specs) && LoadAll(ManifestTaps(specs), resp).Some?
    ensures Decodable(LoadAll(ManifestTaps(specs), resp).value.0)
    ensures Named(LoadAll(ManifestTaps(specs), resp).value.0)
    ensures forall i :: 0 <= i < |specs| ==> LoadAll(ManifestTaps(specs), resp).value.0[i].curSample == 0
  {
    var s := ManifestTaps(specs);
    var ts := LoadAll(s, resp).value.0;
    ManifestDecodable(specs);
    LoadedShape(s, resp);
    forall i | 0 <= i < |ts|
      ensures ts[i].curSample == 0 && WellFormed(ts[i]) && Tokens(ts[i]) != []
    {
      assert ts[i].signals == s[i].signals && ts[i].width == s[i].width && ts[i].path == s[i].path;
      assert WellFormed(s[i]) && Tokens(s[i]) != [];
    }
  }

  /** Loading one more tap extends the loaded prefix by that tap's update and queries. */
  lemma LoadStep(s: seq<Tap>, resp: seq<Word>, i: nat)
    requires i < |s| && LoadAll(s[..i], resp).Some?
    ensures var prev := LoadAll(s[..i], resp).value;
      LoadAll(s[..i + 1], resp) ==
        match Info(s[i], resp[|prev.1|..])
        case None => None
        case Some((t, n)) => Some((prev.0 + [t], prev.1 + InfoQueries(s[i].id, n)))
  {
    assert s[..i + 1][..i] == s[..i];
  }

  /** The trace-info exchange for one tap: the sample count, and for a nonzero count the
      start and the delta, from which the tap's first cycle is `1 + start + delta`. */
  method LoadTap(dev: Device, t: Tap) returns (err: int, t': Tap)
    modifies dev
    ensures err == 0 <==> !dev.failing && Info(t, old(dev.responses)).Some?
    ensures err != 0 ==> err == dev.failCode
    ensures err == 0 ==>
      var info := Info(t, old(dev.responses)).value;
      && t' == info.0
      && dev.written == old(dev.written) + InfoQueries(t.id, info.1)
      && dev.responses == old(dev.responses)[info.1..]
  {
    t' := t;
    var count, start, delta;
    err, count := dev.Query(Command(GET_COUNT, t.id));
    if err != 0 || count == 0 {
      return;
    }
    err, start := dev.Query(Command(GET_START, t.id));
    if err != 0 {
      return;
    }
    err, delta := dev.Query(Command(GET_DATA, t.id));
    if err != 0 {
      return;
    }
    t' := t.(samples := Low32(count as nat), cycleTime := 1 + start as nat + delta as nat);
  }

  /** After loading the first `i` of the taps `s0` from the responses `resp0`: the taps `cur`
      hold the loaded prefix `r.0` and the rest untouched, the log `written` gained the
      queries `r.1`, and as many responses were read. */
  ghost predicate LoadedUpTo(cur: seq<Tap>, written: seq<Word>, responses: seq<Word>, i: nat,
                             s0: seq<Tap>, resp0: seq<Word>, log0: seq<Word>,
                             r: (seq<Tap>, seq<Word>))
  {
    && |cur| == |s0| && i <= |s0|
    && (forall k :: i <= k < |cur| ==> cur[k] == s0[k])
    && LoadAll(s0[..i], resp0) == Some(r)
    && cur[..i] == r.0
    && written == log0 + r.1
    && |r.1| <= |resp0| && responses == resp0[|r.1|..]
  }

  /** Loading tap `i` as `t`, with the queries `qs` reading as many responses, advances the
      loaded prefix by one tap. */
  lemma LoadedAdvance(cur: seq<Tap>, written: seq<Word>, responses: seq<Word>, i: nat,
                      s0: seq<Tap>, resp0: seq<Word>, log0: seq<Word>, r: (seq<Tap>, seq<Word>),
                      t: Tap, qs: seq<Word>)
    requires LoadedUpTo(cur, written, responses, i, s0, resp0, log0, r) && i < |s0|
    requires LoadAll(s0[..i + 1], resp0) == Some((r.0 + [t], r.1 + qs))
    requires |qs| <= |responses|
    ensures LoadedUpTo(cur[i := t], written + qs, responses[|qs|..], i + 1, s0, resp0, log0,
                       (r.0 + [t], r.1 + qs))
  {
    var cur', r' := cur[i := t], (r.0 + [t], r.1 + qs);
    assert forall k :: i + 1 <= k < |cur'| ==> cur'[k] == s0[k];
    assert cur'[..i + 1] == cur[..i] + [t] == r'.0;
    AppendAssoc(log0, r.1, qs);
    assert |r'.1| <= |resp0|;
    assert responses[|qs|..] == resp0[|r'.1|..];
  }

  /** One round of the trace-info pass: loads tap `i`. */
  method LoadNext(taps: array<Tap>, dev: Device, i: nat, ghost s0: seq<Tap>, ghost resp0: seq<Word>,
                  ghost log0: seq<Word>, ghost r: (seq<Tap>, seq<Word>))
    returns (err: int, ghost r': (seq<Tap>, seq<Word>))
    requires i < taps.Length && (i > 0 ==> !dev.failing)
    requires LoadedUpTo(taps[..], dev.written, dev.responses, i, s0, resp0, log0, r)
    modifies taps, dev
    ensures err == 0 ==> !dev.failing && LoadedUpTo(taps[..], dev.written, dev.responses, i + 1, s0, resp0, log0, r')
    ensures err != 0 ==> err == dev.failCode && (dev.failing || LoadAll(s0, resp0).None?)
  {
    r' := r;
    ghost var cur, written, responses := taps[..], dev.written, dev.responses;
    LoadStep(s0, resp0, i);
    var t;
    err, t := LoadTap(dev, taps[i]);
    if err != 0 {
      if !dev.failing {
        LoadAllShort(s0, resp0, i + 1);
      }
      return;
    }
    ghost var qs := InfoQueries(s0[i].id, Info(s0[i], responses).value.1);
    LoadedAdvance(cur, written, responses, i, s0, resp0, log0, r, t, qs);
    taps[i] := t;
    r' := (r.0 + [t], r.1 + qs);
    assert taps[..] == cur[i := t];
  }

  /** The trace-info pass over the taps, in order; the first failed exchange is returned. */
  method LoadTraceInfo(taps: array<Tap>, dev: Device) returns (err: int)
    modifies taps, dev
    ensures err == 0 <==>
      (taps.Length == 0 || !dev.failing) && LoadAll(old(taps[..]), old(dev.responses)).Some?
    ensures err != 0 ==> err == dev.failCode
    ensures err == 0 ==>
      var r := LoadAll(old(taps[..]), old(dev.responses)).value;
      && taps[..] == r.0
      && dev.written == old(dev.written) + r.1
      && dev.responses == old(dev.responses)[|r.1|..]
  {
    ghost var s0 := taps[..];
    ghost var resp0 := dev.responses;
    ghost var log0 := dev.written;
    ghost var r: (seq<Tap>, seq<Word>) := ([], []);
    assert s0[..0] == [];
    for i := 0 to taps.Length
      invariant LoadedUpTo(taps[..], dev.written, dev.responses, i, s0, resp0, log0, r)
      invariant i > 0 ==> !dev.failing
    {
      err, r := LoadNext(taps, dev, i, s0, resp0, log0, r);
      if err != 0 {
        return;
      }
    }
    assert s0[..taps.Length] == s0 && taps[..][..taps.Length] == taps[..];
    err := 0;
  }

  // ----- the session -----

  /** The start and stop configuration writes: the depth command when a depth is given, then
      the stop time and the start time unless they are the all-ones word. */
  function StartLog(specs: seq<TapSpec>, startTime: Word, stopTime: Word,
                    depth: Option<bv32>): (cmds: seq<Word>)
    ensures |cmds| == |specs| * ((if depth.Some? then 1 else 0)
                                 + (if stopTime != NO_TIME then 1 else 0)
                                 + (if startTime != NO_TIME then 1 else 0))
  {
    (if depth.Some? then DepthWrites(specs, depth.value) else [])
    + (if stopTime != NO_TIME then PerTap(specs, SET_STOP, stopTime) else [])
    + (if startTime != NO_TIME then PerTap(specs, SET_START, startTime) else [])
  }

  /** The tap records `s` placed in a fresh array, their trace info loaded in order. */
  method LoadTaps(s: seq<Tap>, dev: Device) returns (err: int, taps: array<Tap>)
    modifies dev
    ensures fresh(taps)
    ensures err != 0 ==> err == dev.failCode
    ensures err == 0 ==>
      var r := LoadAll(s, old(dev.responses));
      && r.Some? && taps[..] == r.value.0
      && dev.written == old(dev.written) + r.value.1 && dev.responses == old(dev.responses)[|r.value.1|..]
  {
    taps := new Tap[|s|](i requires 0 <= i < |s| => s[i]);
    assert taps[..] == s;
    err := LoadTraceInfo(taps, dev);
  }

  /** The first half of stop's work: builds the tap records from the manifest, tells every tap
      to stop, and loads their trace info. On success the device was sent one stop write per
      tap and then the trace-info queries, and answered those queries. */
  method LoadSession(dev: Device, specs: seq<TapSpec>) returns (err: int, taps: array<Tap>)
    requires Consistent(specs)
    modifies dev
    ensures fresh(taps)
    ensures err != 0 ==> err == dev.failCode
    ensures err == 0 ==>
      var r := LoadAll(ManifestTaps(specs), old(dev.responses));
      && r.Some? && taps[..] == r.value.0
      && Decodable(taps[..]) && Named(taps[..])
      && (forall i :: 0 <= i < taps.Length ==> taps[i].curSample == 0)
      && dev.written == old(dev.written) + PerTap(specs, SET_STOP, 0) + r.value.1
      && dev.responses == old(dev.responses)[|r.value.1|..]
  {
    var s := LoadManifest(specs);
    err := WriteAll(dev, PerTap(specs, SET_STOP, 0));
    if err != 0 {
      taps := new Tap[0];
      return;
    }
    err, taps := LoadTaps(s, dev);
    if err != 0 {
      return;
    }
    LoadedDecodable(specs, old(dev.responses));
  }

  /** `header` is the header dump_header writes for `taps`: the preamble and, inside the
      top scope, one block per head of the module hierarchy the tap paths form, each module
      holding its own declarations and, once each, the blocks of its child modules. */
  ghost predicate HeaderFor(taps: seq<Tap>, header: seq<Line>)
    requires Named(taps)
  {
    exists h: map<string, set<string>>, tails: map<string, nat>, trees: seq<Node> ::
      && Pairs(h) == Edges(taps) && NoEmptyEntry(h) && TailsOf(taps, tails)
      && Family(trees, Heads(taps), h, |h|) && header == Enclose(Blocks(trees, tails, taps, 1))
  }

  /** What a successful reconstruction delivers for the loaded taps, with the device
      answering `resp`: the header for those taps and, as trace, the completed merge
      `merged` of their samples. */
  ghost predicate Reconstructed(loaded: seq<Tap>, resp: seq<Word>, header: seq<Line>,
                                trace: seq<Line>, merged: Merged)
  {
    && Decodable(loaded) && Named(loaded)
    && HeaderDumped(loaded, header) && TraceDumped(loaded, resp, trace, merged)
  }

  /** The header written for `loaded` is theirs, properly nested, and declares every tap's
      signals under its module path when the paths form no cycle. */
  ghost predicate HeaderDumped(loaded: seq<Tap>, header: seq<Line>)
    requires Named(loaded)
  {
    && HeaderFor(loaded, header) && Nested(header) && Framed(header)
    && (Acyclic(Edges(loaded)) ==> Declared(loaded, header))
  }

  /** The trace is the completed merge `merged` of the samples of `loaded`, closed by the
      final cycle: its samples come at strictly increasing times, each signal of each sample
      changes once, and each tap is dumped once per sample it holds. */
  ghost predicate TraceDumped(loaded: seq<Tap>, resp: seq<Word>, trace: seq<Line>, merged: Merged)
    requires Decodable(loaded)
  {
    && MergeFrom(loaded, resp, 0) == Some(merged) && trace == Closed(merged)
    && Flat(trace) && Increasing(Stamps(trace)) && ChangeCount(trace) == Workload(loaded)
    && (forall i :: 0 <= i < |loaded| ==> Count(merged.picks, i) == loaded[i].samples)
    && (merged.picks == [] <==> trace == [])
  }

  /** The header dump_header returns for named taps is their header. */
  lemma HeaderReconstructed(s0: seq<Tap>, header: seq<Line>, h: map<string, set<string>>,
                            tails: map<string, nat>, trees: seq<Node>)
    requires Named(s0) && Pairs(h) == Edges(s0) && NoEmptyEntry(h) && TailsOf(s0, tails)
    requires Family(trees, Heads(s0), h, |h|) && header == Enclose(Blocks(trees, tails, s0, 1))
    requires Nested(header) && Framed(header) && (Acyclic(Edges(s0)) ==> Declared(s0, header))
    ensures HeaderDumped(s0, header)
  {
    assert HeaderFor(s0, header) by {
      assert Pairs(h) == Edges(s0) && NoEmptyEntry(h) && TailsOf(s0, tails)
        && Family(trees, Heads(s0), h, |h|) && header == Enclose(Blocks(trees, tails, s0, 1));
    }
  }

  /** The completed merge of freshly loaded taps, closed by the final cycle, is their trace. */
  lemma TraceReconstructed(s0: seq<Tap>, resp0: seq<Word>, trace: seq<Line>, merged: Merged)
    requires Decodable(s0) && forall i :: 0 <= i < |s0| ==> s0[i].curSample == 0
    requires MergeFrom(s0, resp0, 0) == Some(merged) && trace == Closed(merged)
    ensures TraceDumped(s0, resp0, trace, merged)
  {
    MergeTrace(s0, resp0);
    MergeOrderly(s0, resp0, 0);
  }

  /** The second half of stop's work: writes the header for the loaded taps, then merges
      their samples into one timeline. It succeeds exactly when the merge completes with the
      device's responses and the device does not fail, or there is nothing to dump; then the
      device was sent and answered the merge's sample reads and nothing else. */
  method DumpSession(taps: array<Tap>, dev: Device)
    returns (err: int, header: seq<Line>, trace: seq<Line>, ghost merged: Merged)
    requires Decodable(taps[..]) && Named(taps[..])
    requires forall i :: 0 <= i < taps.Length ==> taps[i].curSample == 0
    modifies taps, dev
    ensures err != 0 ==> err == dev.failCode
    ensures err == 0 <==>
      MergeFrom(old(taps[..]), old(dev.responses), 0).Some? && (!dev.failing || Finished(old(taps[..])))
    ensures err == 0 ==>
      && Reconstructed(old(taps[..]), old(dev.responses), header, trace, merged)
      && dev.written == old(dev.written) + merged.log
      && merged.used <= |old(dev.responses)| && dev.responses == old(dev.responses)[merged.used..]
  {
    ghost var s0, resp0 := taps[..], dev.responses;
    header := WriteHeader(taps[..]);
    ghost var picks, times;
    err, trace, picks, times := Drain(taps, dev);
    merged := NoRounds;
    if err == 0 {
      merged := MergeFrom(s0, resp0, 0).value;
      TraceReconstructed(s0, resp0, trace, merged);
    }
  }

  /** The header of the session's taps, as dump_header writes it. */
  method WriteHeader(taps: seq<Tap>) returns (header: seq<Line>)
    requires Named(taps)
    ensures HeaderDumped(taps, header)
  {
    var hierarchy, tails;
    ghost var trees;
    header, hierarchy, tails, trees := DumpHeader(taps);
    HeaderReconstructed(taps, header, hierarchy, tails, trees);
  }

  /** The work of stop once the manifest is at hand: every tap is told to stop, its trace
      info is loaded, and the header and the merged samples are written. On success the
      device was sent the stop writes, the trace-info queries and the merge's sample reads,
      in that order, and the merge read the responses left after the queries. */
  method Reconstruct(dev: Device, specs: seq<TapSpec>)
    returns (err: int, header: seq<Line>, trace: seq<Line>,
             ghost loaded: seq<Tap>, ghost queries: seq<Word>, ghost merged: Merged)
    requires Consistent(specs)
    modifies dev
    ensures err != 0 ==> err == dev.failCode
    ensures err == 0 ==> Reconstructs(specs, old(dev.responses), old(dev.written), loaded, queries,
                                      header, trace, merged, dev.responses, dev.written)
  {
    header, trace, loaded, queries, merged := [], [], [], [], NoRounds;
    var taps;
    ghost var resp0, log0 := dev.responses, dev.written;
    err, taps := LoadSession(dev, specs);
    if err != 0 {
      return;
    }
    loaded, queries := taps[..], LoadAll(ManifestTaps(specs), resp0).value.1;
    err, header, trace, merged := DumpSession(taps, dev);
    if err == 0 {
      DropTwice(resp0, |queries|, merged.used);
    }
  }

  /** The whole of a successful stop with the manifest `specs`, the device answering `resp0`
      after logging `log0`: loading the manifest's taps yields `loaded` and sends the
      trace-info `queries`; `loaded` is reconstructed as `header` and `trace` from the
      responses left after those queries; and the device's log and queue end as the stop
      writes, the queries and the merge left them. */
  ghost predicate Reconstructs(specs: seq<TapSpec>, resp0: seq<Word>, log0: seq<Word>, loaded: seq<Tap>,
                               queries: seq<Word>, header: seq<Line>, trace: seq<Line>, merged: Merged,
                               resp: seq<Word>, log: seq<Word>)
  {
    && LoadAll(ManifestTaps(specs), resp0) == Some((loaded, queries)) && |queries| <= |resp0|
    && Reconstructed(loaded, resp0[|queries|..], header, trace, merged)
    && |queries| + merged.used <= |resp0| && resp == resp0[|queries| + merged.used..]
    && log == log0 + PerTap(specs, SET_STOP, 0) + queries + merged.log
  }

  /** The scope session; `running` says a capture was started and not yet stopped. */
  class Session {
    var running: bool

    constructor ()
      ensures !running
    {
      running := false;
    }

    /** Starts a capture: checks every tap's width against the device, then configures the
        depth, stop and start times of every tap. The session runs only when every step
        succeeded; an absent device or manifest answers -1 and a width mismatch 1. */
    method Start(dev: Device?, manifest: Option<seq<TapSpec>>, startTime: Word, stopTime: Word,
                 depth: Option<bv32>) returns (err: int)
      modifies this, dev
      ensures dev == null || manifest.None? ==> err == -1
      ensures manifest.None? && dev != null ==>
        dev.written == old(dev.written) && dev.responses == old(dev.responses)
      ensures err == 0 ==> running
      ensures err != 0 ==> running == old(running)
      ensures dev != null && manifest.Some? ==>
        var specs, resp := manifest.value, old(dev.responses);
        var k := MismatchFrom(specs, resp, 0);
        && (err == 0 <==> specs == [] || (!dev.failing && k == |specs|))
        && (err == 0 ==>
              && dev.written == old(dev.written) + PerTap(specs, GET_WIDTH, 0)
                                + StartLog(specs, startTime, stopTime, depth)
              && dev.responses == resp[|specs|..])
        && (!dev.failing && k < |specs| && k < |resp| ==>
              err == 1 && dev.written == old(dev.written) + PerTap(specs, GET_WIDTH, 0)[..k + 1])
        && (err != 0 && (dev.failing || k >= |resp|) ==> err == dev.failCode)
    {
      if dev == null || manifest.None? {
        return -1;
      }
      var specs := manifest.value;
      ghost var queries := PerTap(specs, GET_WIDTH, 0);
      err := ValidateWidths(dev, specs);
      if err != 0 {
        return;
      }
      assert queries[..|specs|] == queries;
      ghost var validated := dev.written;
      var depthLog := if depth.Some? then DepthWrites(specs, depth.value) else [];
      var stopLog := if stopTime != NO_TIME then PerTap(specs, SET_STOP, stopTime) else [];
      var startLog := if startTime != NO_TIME then PerTap(specs, SET_START, startTime) else [];
      err := WriteAll(dev, depthLog);
      if err != 0 {
        return;
      }
      err := WriteAll(dev, stopLog);
      if err != 0 {
        return;
      }
      err := WriteAll(dev, startLog);
      if err != 0 {
        return;
      }
      AppendAssoc(validated, depthLog, stopLog);
      AppendAssoc(validated, depthLog + stopLog, startLog);
      running := true;
      err := 0;
    }

    /** Stops the capture and reconstructs its trace. Without a device it answers -1; when
        no capture runs it answers 0 and touches nothing. Otherwise the session stops, and
        with a manifest the trace is reconstructed. */
    method Stop(dev: Device?, manifest: Option<seq<TapSpec>>)
      returns (err: int, header: seq<Line>, trace: seq<Line>,
               ghost loaded: seq<Tap>, ghost queries: seq<Word>, ghost merged: Merged)
      requires manifest.Some? ==> Consistent(manifest.value)
      modifies this, dev
      ensures dev == null ==> err == -1 && running == old(running) && header == [] && trace == []
      ensures dev != null ==> !running
      ensures dev != null && (!old(running) || manifest.None?) ==>
        && err == 0 && header == [] && trace == []
        && dev.written == old(dev.written) && dev.responses == old(dev.responses)
      ensures err != 0 && dev != null ==> err == dev.failCode
      ensures err == 0 && dev != null && old(running) && manifest.Some? ==>
        Reconstructs(manifest.value, old(dev.responses), old(dev.written), loaded, queries, header,
                     trace, merged, dev.responses, dev.written)
    {
      header, trace, loaded, queries, merged := [], [], [], [], NoRounds;
      if dev == null {
        err := -1;
        return;
      }
      err := 0;
      if !running {
        return;
      }
      running := false;
      if manifest.None? {
        return;
      }
      err, header, trace, loaded, queries, merged := Reconstruct(dev, manifest.value);
    }
  }
}

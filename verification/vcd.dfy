/** The lines of the value change dump the trace is written to (the VCD format of
    IEEE Std 1364-2005, clause 18), their exact text, and two structural properties of a
    line sequence: scopes are properly nested, and timestamps strictly increase. */
module Vcd {

  datatype Line =
    | Version                                               // $version ... $end
    | Timescale                                             // $timescale 1 ns $end
    | ScopeOpen(indent: nat, name: string)                  // $scope module <name> $end
    | VarDecl(indent: nat, width: nat, id: nat, name: string) // $var wire <w> <id> <name> $end
    | Upscope(indent: nat)                                  // $upscope $end
    | EndDefinitions                                        // enddefinitions $end
    | Timestamp(time: nat)                                  // #<time>
    | ClockValue(level: char)                               // b0 0, b1 0 or bx 0
    | Change(bits: string, id: nat)                         // b<bits> <id>

  function Digit(d: nat): char
    requires d < 10
  {
    "0123456789"[d]
  }

  /** Decimal rendering, as `operator<<` prints an unsigned integer: digits only, with no
      leading zero except for zero itself. */
  function NatToString(n: nat): (r: string)
    ensures |r| > 0 && Decimal(r)
    ensures r[0] == '0' <==> n == 0
  {
    if n < 10 then [Digit(n)] else NatToString(n / 10) + [Digit(n % 10)]
  }

  /** A nonempty run of decimal digits. */
  predicate Decimal(s: string)
  {
    |s| > 0 && forall i :: 0 <= i < |s| ==> '0' <= s[i] <= '9'
  }

  /** The number a run of decimal digits denotes: the reading side of `NatToString`. */
  function ParseDecimal(s: string): nat
    requires Decimal(s)
  {
    var d := (s[|s| - 1] as int - '0' as int) as nat;
    if |s| == 1 then d else 10 * ParseDecimal(s[..|s| - 1]) + d
  }

  /** Reading back a printed number gives the number. */
  lemma {:induction false} ParseNatToString(n: nat)
    ensures ParseDecimal(NatToString(n)) == n
  {
    if n >= 10 {
      var r := NatToString(n);
      ParseNatToString(n / 10);
      assert r[..|r| - 1] == NatToString(n / 10);
    }
  }

  /** Distinct numbers print differently. */
  lemma NatToStringInjective(m: nat, n: nat)
    ensures NatToString(m) == NatToString(n) <==> m == n
  {
    ParseNatToString(m);
    ParseNatToString(n);
  }

  function Spaces(n: nat): (r: string)
    ensures |r| == n && forall i :: 0 <= i < n ==> r[i] == ' '
  {
    seq(n, _ => ' ')
  }

  /** The exact text of a line, without its line terminator. */
  function Render(l: Line): string
  {
    match l
    case Version => "$version Generated by Vortex Scope Analyzer $end"
    case Timescale => "$timescale 1 ns $end"
    case ScopeOpen(indent, name) => Spaces(indent) + "$scope module " + name + " $end"
    case VarDecl(indent, width, id, name) =>
      Spaces(indent) + "$var wire " + NatToString(width) + " " + NatToString(id) + " " + name + " $end"
    case Upscope(indent) => Spaces(indent) + "$upscope $end"
    case EndDefinitions => "enddefinitions $end"
    case Timestamp(time) => "#" + NatToString(time)
    case ClockValue(level) => "b" + [level] + " 0"
    case Change(bits, id) => "b" + bits + " " + NatToString(id)
  }

  /** A timestamp line reads back as its time: `#` followed by the time's digits. */
  lemma RenderTimestamp(time: nat)
    ensures var r := Render(Timestamp(time));
      && |r| > 1 && r[0] == '#' && Decimal(r[1..]) && ParseDecimal(r[1..]) == time
  {
    ParseNatToString(time);
    assert Render(Timestamp(time))[1..] == NatToString(time);
  }

  /** A value-change line reads back as its value and its signal id: `b`, the value's
      characters, a space, then the id's digits. */
  lemma RenderChange(bits: string, id: nat)
    ensures var r := Render(Change(bits, id));
      && |r| == |bits| + 2 + |NatToString(id)| && r[0] == 'b' && r[1..|bits| + 1] == bits
      && r[|bits| + 1] == ' ' && Decimal(r[|bits| + 2..]) && ParseDecimal(r[|bits| + 2..]) == id
  {
    var r := Render(Change(bits, id));
    ParseNatToString(id);
    assert r == "b" + bits + " " + NatToString(id);
    assert r[1..|bits| + 1] == bits;
    assert r[|bits| + 2..] == NatToString(id);
  }

  /** Two timestamp lines, or two changes of the same value, render alike exactly when they
      carry the same time, or the same id. */
  lemma RenderDistinguishes(t: nat, u: nat, bits: string, i: nat, j: nat)
    ensures Render(Timestamp(t)) == Render(Timestamp(u)) <==> t == u
    ensures Render(Change(bits, i)) == Render(Change(bits, j)) <==> i == j
  {
    RenderTimestamp(t);
    RenderTimestamp(u);
    RenderChange(bits, i);
    RenderChange(bits, j);
  }

  /** A scope, declaration or upscope line starts with `indent` spaces and then its `$`
      keyword, so its indentation reads back from its text. */
  lemma RenderIndent(l: Line)
    requires l.ScopeOpen? || l.VarDecl? || l.Upscope?
    ensures |Render(l)| > l.indent && Render(l)[..l.indent] == Spaces(l.indent) && Render(l)[l.indent] == '$'
  {
    match l
    case ScopeOpen(indent, name) =>
      Indented(indent, "$scope module " + name + " $end");
    case VarDecl(indent, width, id, name) =>
      Indented(indent, "$var wire " + NatToString(width) + " " + NatToString(id) + " " + name + " $end");
    case Upscope(indent) =>
      Indented(indent, "$upscope $end");
  }

  lemma Indented(indent: nat, rest: string)
    requires |rest| > 0
    ensures var r := Spaces(indent) + rest; r[..indent] == Spaces(indent) && r[indent] == rest[0]
  {
  }

  // ----- scope nesting -----

  function Delta(l: Line): int
  {
    if l.ScopeOpen? then 1 else if l.Upscope? then -1 else 0
  }

  /** Number of scopes left open after the lines `s`. */
  function Depth(s: seq<Line>): int
  {
    if s == [] then 0 else Depth(s[..|s| - 1]) + Delta(s[|s| - 1])
  }

  /** Every `$scope` is closed by a later `$upscope` and no `$upscope` closes nothing. */
  ghost predicate Nested(s: seq<Line>)
  {
    Depth(s) == 0 && forall k :: 0 <= k <= |s| ==> Depth(s[..k]) >= 0
  }

  /** Lines that neither open nor close a scope. */
  ghost predicate Flat(s: seq<Line>)
  {
    forall i :: 0 <= i < |s| ==> Delta(s[i]) == 0
  }

  function Opens(s: seq<Line>): nat
  {
    if s == [] then 0 else Opens(s[..|s| - 1]) + (if s[|s| - 1].ScopeOpen? then 1 else 0)
  }

  function Closes(s: seq<Line>): nat
  {
    if s == [] then 0 else Closes(s[..|s| - 1]) + (if s[|s| - 1].Upscope? then 1 else 0)
  }

  lemma {:induction false} DepthAppend(a: seq<Line>, b: seq<Line>)
    ensures Depth(a + b) == Depth(a) + Depth(b)
  {
    if b != [] {
      assert (a + b)[..|a + b| - 1] == a + b[..|b| - 1];
      DepthAppend(a, b[..|b| - 1]);
    } else {
      assert a + b == a;
    }
  }

  /** The depth is the number of opened scopes minus the number of closed ones. */
  lemma {:induction false} DepthCounts(s: seq<Line>)
    ensures Depth(s) == Opens(s) - Closes(s)
  {
    if s != [] {
      DepthCounts(s[..|s| - 1]);
    }
  }

  /** In nested lines every `$scope` line is matched by exactly one `$upscope` line. */
  lemma NestedBalanced(s: seq<Line>)
    requires Nested(s)
    ensures Opens(s) == Closes(s)
  {
    DepthCounts(s);
  }

  lemma {:induction false} FlatDepth(s: seq<Line>)
    requires Flat(s)
    ensures Depth(s) == 0
  {
    if s != [] {
      FlatDepth(s[..|s| - 1]);
    }
  }

  lemma FlatAppend(a: seq<Line>, b: seq<Line>)
    ensures Flat(a + b) <==> Flat(a) && Flat(b)
  {
    if Flat(a) && Flat(b) {
      forall i | 0 <= i < |a + b|
        ensures Delta((a + b)[i]) == 0
      {
        if i >= |a| {
          assert (a + b)[i] == b[i - |a|];
        }
      }
    }
    if Flat(a + b) {
      forall i | 0 <= i < |a|
        ensures Delta(a[i]) == 0
      {
        assert (a + b)[i] == a[i];
      }
      forall i | 0 <= i < |b|
        ensures Delta(b[i]) == 0
      {
        assert (a + b)[|a| + i] == b[i];
      }
    }
  }

  lemma FlatNested(s: seq<Line>)
    requires Flat(s)
    ensures Nested(s)
  {
    FlatDepth(s);
    forall k | 0 <= k <= |s|
      ensures Depth(s[..k]) >= 0
    {
      FlatDepth(s[..k]);
    }
  }

  lemma NestedAppend(a: seq<Line>, b: seq<Line>)
    requires Nested(a) && Nested(b)
    ensures Nested(a + b)
  {
    DepthAppend(a, b);
    forall k | 0 <= k <= |a + b|
      ensures Depth((a + b)[..k]) >= 0
    {
      if k <= |a| {
        assert (a + b)[..k] == a[..k];
      } else {
        assert (a + b)[..k] == a + b[..k - |a|];
        DepthAppend(a, b[..k - |a|]);
      }
    }
  }

  /** Wrapping nested lines in one `$scope`/`$upscope` pair keeps them nested. */
  lemma NestedWrap(open: Line, body: seq<Line>, close: Line)
    requires open.ScopeOpen? && close.Upscope? && Nested(body)
    ensures Nested([open] + body + [close])
  {
    var s := [open] + body + [close];
    DepthAppend([open] + body, [close]);
    DepthAppend([open], body);
    forall k | 0 <= k <= |s|
      ensures Depth(s[..k]) >= 0
    {
      if k == 0 {
      } else if k <= |body| + 1 {
        assert s[..k] == [open] + body[..k - 1];
        DepthAppend([open], body[..k - 1]);
      } else {
        assert s[..k] == s;
      }
    }
  }

  // ----- timestamps -----

  /** The times of the `#<time>` lines, in output order. */
  function Stamps(s: seq<Line>): seq<nat>
  {
    if s == [] then []
    else Stamps(s[..|s| - 1]) + (if s[|s| - 1].Timestamp? then [s[|s| - 1].time] else [])
  }

  ghost predicate Increasing(xs: seq<nat>)
  {
    forall i, j :: 0 <= i < j < |xs| ==> xs[i] < xs[j]
  }

  /** Every element lies in `[lo, hi)`. */
  ghost predicate Within(xs: seq<nat>, lo: nat, hi: nat)
  {
    forall i :: 0 <= i < |xs| ==> lo <= xs[i] < hi
  }

  lemma {:induction false} StampsAppend(a: seq<Line>, b: seq<Line>)
    ensures Stamps(a + b) == Stamps(a) + Stamps(b)
  {
    if b == [] {
      assert a + b == a;
    } else {
      assert (a + b)[..|a + b| - 1] == a + b[..|b| - 1];
      StampsAppend(a, b[..|b| - 1]);
    }
  }

  /** Lines that are all value changes carry no timestamp and no scope marker. */
  lemma {:induction false} ChangesOnly(s: seq<Line>)
    requires forall i :: 0 <= i < |s| ==> s[i].Change?
    ensures Stamps(s) == [] && Flat(s)
  {
    if s != [] {
      ChangesOnly(s[..|s| - 1]);
    }
  }

  /** The number of value-change lines. */
  function ChangeCount(s: seq<Line>): nat
  {
    if s == [] then 0 else ChangeCount(s[..|s| - 1]) + (if s[|s| - 1].Change? then 1 else 0)
  }

  lemma {:induction false} ChangeCountAppend(a: seq<Line>, b: seq<Line>)
    ensures ChangeCount(a + b) == ChangeCount(a) + ChangeCount(b)
  {
    if b == [] {
      assert a + b == a;
    } else {
      assert (a + b)[..|a + b| - 1] == a + b[..|b| - 1];
      ChangeCountAppend(a, b[..|b| - 1]);
    }
  }

  /** Lines that are all value changes count in full; lines with none count zero. */
  lemma {:induction false} ChangeCountUniform(s: seq<Line>)
    ensures (forall i :: 0 <= i < |s| ==> s[i].Change?) ==> ChangeCount(s) == |s|
    ensures (forall i :: 0 <= i < |s| ==> !s[i].Change?) ==> ChangeCount(s) == 0
  {
    if s != [] {
      ChangeCountUniform(s[..|s| - 1]);
    }
  }

  /** Increasing times in `[base, lo)` followed by increasing times in `[lo, hi)` are
      increasing times in `[base, hi)`. */
  lemma IncreasingConcat(xs: seq<nat>, ys: seq<nat>, base: nat, lo: nat, hi: nat)
    requires Increasing(xs) && Within(xs, base, lo)
    requires Increasing(ys) && Within(ys, lo, hi) && base <= lo <= hi
    ensures Increasing(xs + ys) && Within(xs + ys, base, hi)
  {
  }

  /** Lines that open and close no scope and whose times increase strictly, all in `[lo, hi)`. */
  ghost predicate Orderly(s: seq<Line>, lo: nat, hi: nat)
  {
    Flat(s) && Increasing(Stamps(s)) && Within(Stamps(s), lo, hi)
  }

  /** Orderly lines stay orderly within a wider range of times. */
  lemma OrderlyWiden(s: seq<Line>, lo: nat, hi: nat, lo': nat, hi': nat)
    requires Orderly(s, lo, hi) && lo' <= lo && hi <= hi'
    ensures Orderly(s, lo', hi')
  {
  }

  /** Orderly lines with times in `[base, lo)` followed by orderly lines with times in
      `[lo, hi)` are orderly lines with times in `[base, hi)`. */
  lemma OrderlyAppend(a: seq<Line>, b: seq<Line>, base: nat, lo: nat, hi: nat)
    requires Orderly(a, base, lo) && Orderly(b, lo, hi) && base <= lo <= hi
    ensures Orderly(a + b, base, hi)
  {
    StampsAppend(a, b);
    IncreasingConcat(Stamps(a), Stamps(b), base, lo, hi);
    FlatAppend(a, b);
  }
}

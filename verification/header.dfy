/** The header of the dump: each tap's dotted path is split into module names, the names are
    linked parent to child, and the resulting module tree is written as nested scopes, each
    tap's signals declared inside the scope named by the last segment of its path. */
module Header {
  import opened Seqs
  import opened Vcd
  import opened Trace

  // ----- split -----

  /** The pieces between the occurrences of `d` in `s`, empty ones included: `k` delimiters
      give `k + 1` pieces. */
  function Pieces(s: string, d: char): (p: seq<string>)
    ensures |p| > 0
  {
    if s == [] then [""]
    else
      var p := Pieces(s[..|s| - 1], d);
      if s[|s| - 1] == d then p + [""]
      else p[..|p| - 1] + [p[|p| - 1] + [s[|s| - 1]]]
  }

  /** What the `getline` loop yields: the pieces, except that an empty last piece is not a
      token (the stream ends right after a delimiter, or is empty). */
  function SplitSpec(s: string, d: char): seq<string>
  {
    var p := Pieces(s, d);
    if p[|p| - 1] == "" then p[..|p| - 1] else p
  }

  /** The tokens joined back together with `d` between them. */
  function Join(ts: seq<string>, d: char): string
  {
    if ts == [] then ""
    else if |ts| == 1 then ts[0]
    else Join(ts[..|ts| - 1], d) + [d] + ts[|ts| - 1]
  }

  predicate NoDelimiter(t: string, d: char)
  {
    forall i :: 0 <= i < |t| ==> t[i] != d
  }

  /** split: reads the string token by token, as `getline` with delimiter `d` does. */
  method Split(s: string, d: char) returns (tokens: seq<string>)
    ensures tokens == SplitSpec(s, d)
  {
    tokens := [];
    var token := "";
    var i := 0;
    while i < |s|
      invariant i <= |s|
      invariant tokens + [token] == Pieces(s[..i], d)
    {
      assert s[..i + 1][..i] == s[..i];
      if s[i] == d {
        tokens := tokens + [token];
        token := "";
      } else {
        token := token + [s[i]];
      }
      i := i + 1;
    }
    assert s[..i] == s;
    if token != "" {
      tokens := tokens + [token];
    }
  }

  /** No piece contains the delimiter. */
  lemma {:induction false} PiecesPlainText(s: string, d: char)
    ensures forall k :: 0 <= k < |Pieces(s, d)| ==> NoDelimiter(Pieces(s, d)[k], d)
  {
    if s != [] {
      var s' := s[..|s| - 1];
      var c := s[|s| - 1];
      var p := Pieces(s', d);
      PiecesPlainText(s', d);
      var q := Pieces(s, d);
      forall k | 0 <= k < |q|
        ensures NoDelimiter(q[k], d)
      {
        if k < |p| - 1 {
          assert q[k] == p[k];
        } else if c != d {
          assert q[k] == p[k] + [c];
        }
      }
    }
  }

  /** Joining the pieces gives back the string. */
  lemma {:induction false} PiecesJoin(s: string, d: char)
    ensures Join(Pieces(s, d), d) == s
  {
    if s != [] {
      var s' := s[..|s| - 1];
      var c := s[|s| - 1];
      var p := Pieces(s', d);
      var n := |p| - 1;
      PiecesJoin(s', d);
      assert s == s' + [c];
      var q := Pieces(s, d);
      if c == d {
        assert q == p + [""];
        assert q[..|q| - 1] == p;
        assert Join(q, d) == Join(p, d) + [d] + "";
      } else {
        assert q == p[..n] + [p[n] + [c]];
        if n == 0 {
          assert Join(q, d) == p[n] + [c];
        } else {
          assert q[..n] == p[..n];
          assert Join(q, d) == Join(p[..n], d) + [d] + (p[n] + [c]);
          assert Join(p, d) == Join(p[..n], d) + [d] + p[n];
        }
      }
    }
  }

  /** Splitting the joined tokens gives them back, when none contains the delimiter. */
  lemma {:induction false} JoinPieces(ts: seq<string>, d: char)
    requires |ts| > 0 && forall k :: 0 <= k < |ts| ==> NoDelimiter(ts[k], d)
    ensures Pieces(Join(ts, d), d) == ts
  {
    if |ts| == 1 {
      PiecesPlain([], ts[0], d);
      assert [] + ts[0] == ts[0];
    } else {
      var n := |ts| - 1;
      var front := Join(ts[..n], d);
      assert forall k :: 0 <= k < n ==> ts[..n][k] == ts[k];
      JoinPieces(ts[..n], d);
      var fd := front + [d];
      assert fd[..|fd| - 1] == front && fd[|fd| - 1] == d;
      var p := Pieces(fd, d);
      assert p == ts[..n] + [""];
      PiecesPlain(fd, ts[n], d);
      assert Join(ts, d) == fd + ts[n];
      assert p[..|p| - 1] == ts[..n] && p[|p| - 1] + ts[n] == ts[n];
      SplitLast(ts);
    }
  }

  /** Appending one character: a delimiter opens a new empty piece, any other character
      extends the last piece. */
  lemma PiecesSnoc(s: string, c: char, d: char)
    ensures var p := Pieces(s, d);
      Pieces(s + [c], d) == if c == d then p + [""] else p[..|p| - 1] + [p[|p| - 1] + [c]]
  {
    assert (s + [c])[..|s + [c]| - 1] == s;
  }

  /** Appending text without a delimiter extends the last piece. */
  lemma {:induction false} PiecesPlain(s: string, t: string, d: char)
    requires NoDelimiter(t, d)
    ensures var p := Pieces(s, d);
      Pieces(s + t, d) == p[..|p| - 1] + [p[|p| - 1] + t]
    decreases |t|
  {
    var p := Pieces(s, d);
    var n := |p| - 1;
    if t == [] {
      assert s + t == s;
      assert p[n] + t == p[n];
      assert p[..n] + [p[n]] == p;
    } else {
      var t' := t[..|t| - 1];
      var c := t[|t| - 1];
      PiecesPlain(s, t', d);
      var r := Pieces(s + t', d);
      assert r[..n] == p[..n] && r[n] == p[n] + t' && |r| == n + 1;
      SplitLast(t);
      AppendAssoc(s, t', [c]);
      PiecesSnoc(s + t', c, d);
      AppendAssoc(p[n], t', [c]);
    }
  }

  /** The round trip of split: tokens without the delimiter, the last of them nonempty, are
      what splitting their join yields; and every token split yields is free of the delimiter. */
  lemma SplitJoin(ts: seq<string>, d: char)
    requires forall k :: 0 <= k < |ts| ==> NoDelimiter(ts[k], d)
    requires ts == [] || ts[|ts| - 1] != ""
    ensures SplitSpec(Join(ts, d), d) == ts
  {
    if ts != [] {
      JoinPieces(ts, d);
    }
  }

  /** Joining what split yields gives back the string, up to a trailing delimiter it drops;
      and no token contains the delimiter. */
  lemma JoinSplit(s: string, d: char)
    ensures forall k :: 0 <= k < |SplitSpec(s, d)| ==> NoDelimiter(SplitSpec(s, d)[k], d)
    ensures Join(SplitSpec(s, d), d) == s || Join(SplitSpec(s, d), d) + [d] == s
  {
    PiecesPlainText(s, d);
    PiecesJoin(s, d);
    var p := Pieces(s, d);
    var n := |p| - 1;
    if p[n] == "" && n > 0 {
      assert p[..n + 1] == p;
      assert Join(p, d) == Join(p[..n], d) + [d] + "";
    }
  }

  /** split yields no token exactly for the empty string. */
  lemma SplitEmpty(s: string, d: char)
    ensures SplitSpec(s, d) == [] <==> s == []
  {
    PiecesJoin(s, d);
    var p := Pieces(s, d);
    if SplitSpec(s, d) == [] {
      assert p == [""];
    }
  }

  // ----- the module hierarchy -----

  /** The module names along a tap's path. */
  function Tokens(t: Tap): seq<string>
  {
    SplitSpec(t.path, '.')
  }

  /** Every tap's path names at least one module, so it has a first and a last segment. */
  ghost predicate Named(taps: seq<Tap>)
  {
    forall i :: 0 <= i < |taps| ==> Tokens(taps[i]) != []
  }

  /** The module a tap's signals are declared in: the last segment of its path. */
  function Leaf(t: Tap): string
    requires Tokens(t) != []
  {
    Tokens(t)[|Tokens(t)| - 1]
  }

  /** The link from segment `k - 1` of a path to segment `k`. */
  function Link(ts: seq<string>, k: nat): (string, string)
    requires 1 <= k < |ts|
  {
    (ts[k - 1], ts[k])
  }

  /** The parent-child links along one path. */
  function PathEdges(ts: seq<string>): set<(string, string)>
  {
    set k | 1 <= k < |ts| :: Link(ts, k)
  }

  /** The parent-child links along all the taps' paths. */
  function Edges(taps: seq<Tap>): set<(string, string)>
  {
    if taps == [] then {} else Edges(taps[..|taps| - 1]) + PathEdges(Tokens(taps[|taps| - 1]))
  }

  /** The first segments of the taps' paths: the modules directly below the top scope. */
  function Heads(taps: seq<Tap>): set<string>
    requires Named(taps)
  {
    if taps == [] then {} else Heads(taps[..|taps| - 1]) + {Tokens(taps[|taps| - 1])[0]}
  }

  /** The links a parent-to-children map records. */
  ghost function Pairs(h: map<string, set<string>>): set<(string, string)>
  {
    set a, b | a in h && b in h[a] :: (a, b)
  }

  /** Every parent in the map has a child: entries are only made by inserting one. */
  ghost predicate NoEmptyEntry(h: map<string, set<string>>)
  {
    forall a :: a in h ==> h[a] != {}
  }

  /** `tails` maps each leaf name of the first `n` taps to the last of them whose path ends
      in it. */
  ghost predicate TailsUpTo(taps: seq<Tap>, n: nat, tails: map<string, nat>)
    requires Named(taps) && n <= |taps|
  {
    && (forall i :: 0 <= i < n ==> Leaf(taps[i]) in tails)
    && (forall x :: x in tails ==>
          && tails[x] < n && Leaf(taps[tails[x]]) == x
          && forall j :: tails[x] < j < n ==> Leaf(taps[j]) != x)
  }

  /** `tails` maps each leaf name to the last tap whose path ends in it. */
  ghost predicate TailsOf(taps: seq<Tap>, tails: map<string, nat>)
    requires Named(taps)
  {
    TailsUpTo(taps, |taps|, tails)
  }

  /** Recording the link `a -> b` adds exactly that pair. */
  lemma PairsInsert(h: map<string, set<string>>, a: string, b: string)
    ensures var children := if a in h then h[a] else {};
      Pairs(h[a := children + {b}]) == Pairs(h) + {(a, b)}
  {
    var children := if a in h then h[a] else {};
    var h' := h[a := children + {b}];
    forall p | p in Pairs(h')
      ensures p in Pairs(h) + {(a, b)}
    {
      var (x, y) := p;
      if x != a {
        assert x in h && y in h[x];
      }
    }
    forall p | p in Pairs(h) + {(a, b)}
      ensures p in Pairs(h')
    {
      var (x, y) := p;
      assert x in h' && y in h'[x];
    }
  }

  lemma PathEdgesStep(ts: seq<string>, i: nat)
    requires 1 <= i < |ts|
    ensures PathEdges(ts[..i + 1]) == PathEdges(ts[..i]) + {Link(ts, i)}
  {
    var a, b := ts[..i + 1], ts[..i];
    forall p | p in PathEdges(a)
      ensures p in PathEdges(b) + {Link(ts, i)}
    {
      var k :| 1 <= k < |a| && p == Link(a, k);
      if k < i {
        assert p == Link(b, k);
      }
    }
    forall p | p in PathEdges(b)
      ensures p in PathEdges(a)
    {
      var k :| 1 <= k < |b| && p == Link(b, k);
      assert p == Link(a, k);
    }
    assert Link(ts, i) == Link(a, i);
  }

  /** The inner loop of dump_header: links each segment of a path to the next. */
  method AddPath(h: map<string, set<string>>, tokens: seq<string>) returns (h': map<string, set<string>>)
    requires NoEmptyEntry(h)
    ensures NoEmptyEntry(h') && Pairs(h') == Pairs(h) + PathEdges(tokens)
  {
    h' := h;
    if |tokens| < 2 {
      assert PathEdges(tokens) == {};
      return;
    }
    assert PathEdges(tokens[..1]) == {};
    for i := 1 to |tokens|
      invariant NoEmptyEntry(h') && Pairs(h') == Pairs(h) + PathEdges(tokens[..i])
    {
      var parent := tokens[i - 1];
      var children := if parent in h' then h'[parent] else {};
      PairsInsert(h', parent, tokens[i]);
      PathEdgesStep(tokens, i);
      h' := h'[parent := children + {tokens[i]}];
    }
    assert tokens[..|tokens|] == tokens;
  }

  /** The hierarchy-building loop's state after the first `n` taps: their links, their
      heads and their leaf names recorded. */
  ghost predicate Built(taps: seq<Tap>, n: nat, hierarchy: map<string, set<string>>,
                        heads: set<string>, tails: map<string, nat>)
    requires Named(taps) && n <= |taps|
  {
    && Named(taps[..n])
    && Pairs(hierarchy) == Edges(taps[..n]) && NoEmptyEntry(hierarchy)
    && heads == Heads(taps[..n])
    && TailsUpTo(taps, n, tails)
  }

  /** One pass of the hierarchy-building loop: records tap `n`'s path. */
  method AddTap(taps: seq<Tap>, n: nat, hierarchy: map<string, set<string>>,
                heads: set<string>, tails: map<string, nat>)
    returns (hierarchy': map<string, set<string>>, heads': set<string>, tails': map<string, nat>)
    requires Named(taps) && n < |taps| && Built(taps, n, hierarchy, heads, tails)
    ensures Built(taps, n + 1, hierarchy', heads', tails')
  {
    var tokens := Split(taps[n].path, '.');
    assert tokens == Tokens(taps[n]) && tokens[|tokens| - 1] == Leaf(taps[n]);
    PrefixStep(taps, n);
    TailsStep(taps, n, tails);
    hierarchy' := AddPath(hierarchy, tokens);
    heads' := heads + {tokens[0]};
    tails' := tails[tokens[|tokens| - 1] := n];
  }

  /** The hierarchy-building loop of dump_header: the recorded links are exactly those along
      the taps' paths, each once; the heads are the paths' first segments; and each leaf
      name maps to the last tap ending in it. */
  method BuildHierarchy(taps: seq<Tap>)
    returns (hierarchy: map<string, set<string>>, heads: set<string>, tails: map<string, nat>)
    requires Named(taps)
    ensures Pairs(hierarchy) == Edges(taps) && NoEmptyEntry(hierarchy)
    ensures heads == Heads(taps)
    ensures TailsOf(taps, tails)
  {
    hierarchy, heads, tails := map[], {}, map[];
    assert taps[..0] == [];
    for n := 0 to |taps|
      invariant Built(taps, n, hierarchy, heads, tails)
    {
      hierarchy, heads, tails := AddTap(taps, n, hierarchy, heads, tails);
    }
    assert taps[..|taps|] == taps;
  }

  /** One more tap adds its path's links and its head. */
  lemma PrefixStep(taps: seq<Tap>, n: nat)
    requires Named(taps) && n < |taps|
    ensures Named(taps[..n + 1])
    ensures Edges(taps[..n + 1]) == Edges(taps[..n]) + PathEdges(Tokens(taps[n]))
    ensures Heads(taps[..n + 1]) == Heads(taps[..n]) + {Tokens(taps[n])[0]}
  {
    assert taps[..n + 1][..n] == taps[..n];
  }

  /** The tap just added is now the last one ending in its leaf name. */
  lemma TailsStep(taps: seq<Tap>, n: nat, tails: map<string, nat>)
    requires Named(taps) && n < |taps| && TailsUpTo(taps, n, tails)
    ensures TailsUpTo(taps, n + 1, tails[Leaf(taps[n]) := n])
  {
  }

  // ----- dump_module and dump_header -----

  /** The declarations of a tap's signals inside a scope, in declaration order. */
  function Decls(sigs: seq<Signal>, indent: nat): (lines: seq<Line>)
    ensures |lines| == |sigs| && Flat(lines)
    ensures forall k :: 0 <= k < |sigs| ==> lines[k] == VarDecl(indent, sigs[k].width, sigs[k].id, sigs[k].name)
  {
    seq(|sigs|, k requires 0 <= k < |sigs| => VarDecl(indent, sigs[k].width, sigs[k].id, sigs[k].name))
  }

  /** The scope of module `name` at `indent`, around its declarations and its children's scopes. */
  function Scope(name: string, indent: nat, decls: seq<Line>, body: seq<Line>): seq<Line>
  {
    [ScopeOpen(indent, name)] + decls + body + [Upscope(indent)]
  }

  /** A scope around flat declarations and nested children is nested. */
  lemma ScopeNested(name: string, indent: nat, decls: seq<Line>, body: seq<Line>)
    requires Flat(decls) && Nested(body)
    ensures Nested(Scope(name, indent, decls, body))
  {
    FlatNested(decls);
    NestedAppend(decls, body);
    NestedWrap(ScopeOpen(indent, name), decls + body, Upscope(indent));
    assert Scope(name, indent, decls, body) == [ScopeOpen(indent, name)] + (decls + body) + [Upscope(indent)];
  }

  /** A module and the trees of its children, in the order their scopes were written. */
  datatype Node = Node(name: string, kids: seq<Node>)

  /** The module names of the trees. */
  function Names(ns: seq<Node>): set<string>
  {
    if ns == [] then {} else Names(ns[..|ns| - 1]) + {ns[|ns| - 1].name}
  }

  /** `ns` are trees for the modules `names`, one for each, no module twice, each written
      as dump_module writes it with `fuel` levels left. */
  ghost predicate Family(ns: seq<Node>, names: set<string>, h: map<string, set<string>>, fuel: nat)
    decreases ns
  {
    && Names(ns) == names && |ns| == |names|
    && forall k :: 0 <= k < |ns| ==> Fits(ns[k], h, fuel)
  }

  /** `n` is a tree dump_module writes for module `n.name` with `fuel` levels left: no
      children once the fuel is spent or where the hierarchy records none, otherwise one
      tree for each child the hierarchy records, in the order the set yields them. */
  ghost predicate Fits(n: Node, h: map<string, set<string>>, fuel: nat)
    decreases n
  {
    if fuel == 0 || n.name !in h then n.kids == [] else Family(n.kids, h[n.name], h, fuel - 1)
  }

  /** The declarations written inside module `name`'s scope: those of the last tap whose path
      ends in it, one level deeper than the scope. */
  function DeclsOf(name: string, tails: map<string, nat>, taps: seq<Tap>, indent: nat): seq<Line>
  {
    if name in tails && tails[name] < |taps| then Decls(taps[tails[name]].signals, indent + 1) else []
  }

  /** The opening of module `name`'s scope at `indent`, with its declarations. */
  function Opening(name: string, tails: map<string, nat>, taps: seq<Tap>, indent: nat): seq<Line>
  {
    [ScopeOpen(indent, name)] + DeclsOf(name, tails, taps, indent)
  }

  /** The lines dump_module writes for the tree `n` at `indent`. */
  function Block(n: Node, tails: map<string, nat>, taps: seq<Tap>, indent: nat): seq<Line>
    decreases n
  {
    Scope(n.name, indent, DeclsOf(n.name, tails, taps, indent), Blocks(n.kids, tails, taps, indent + 1))
  }

  /** The blocks of the trees, one after the other. */
  function Blocks(ns: seq<Node>, tails: map<string, nat>, taps: seq<Tap>, indent: nat): seq<Line>
    decreases ns
  {
    if ns == [] then [] else Blocks(ns[..|ns| - 1], tails, taps, indent) + Block(ns[|ns| - 1], tails, taps, indent)
  }

  /** Every tree's name is among the names. */
  lemma {:induction false} NamesHas(ns: seq<Node>, k: nat)
    requires k < |ns|
    ensures ns[k].name in Names(ns)
  {
    if k < |ns| - 1 {
      NamesHas(ns[..|ns| - 1], k);
    }
  }

  /** Every name belongs to some tree. */
  lemma {:induction false} NamesIndex(ns: seq<Node>, c: string) returns (k: nat)
    requires c in Names(ns)
    ensures k < |ns| && ns[k].name == c
  {
    if ns[|ns| - 1].name == c {
      k := |ns| - 1;
    } else {
      k := NamesIndex(ns[..|ns| - 1], c);
    }
  }

  /** There are no more names than trees. */
  lemma {:induction false} NamesBound(ns: seq<Node>)
    ensures |Names(ns)| <= |ns|
  {
    if ns != [] {
      NamesBound(ns[..|ns| - 1]);
    }
  }

  /** As many names as trees: no module has two trees. */
  lemma {:induction false} NamesOnce(ns: seq<Node>)
    requires |Names(ns)| == |ns|
    ensures forall i, j :: 0 <= i < j < |ns| ==> ns[i].name != ns[j].name
  {
    if ns != [] {
      var front := ns[..|ns| - 1];
      var last := ns[|ns| - 1].name;
      NamesBound(front);
      assert |Names(front) + {last}| > |Names(front)|;
      assert |Names(front)| == |front|;
      NamesOnce(front);
      forall i, j | 0 <= i < j < |ns|
        ensures ns[i].name != ns[j].name
      {
        if j < |ns| - 1 {
          assert ns[i] == front[i] && ns[j] == front[j];
        } else {
          NamesHas(front, i);
        }
      }
    }
  }

  /** One more tree: its name joins the names and its block follows the others. */
  lemma Snoc(ns: seq<Node>, n: Node, tails: map<string, nat>, taps: seq<Tap>, indent: nat)
    ensures Names(ns + [n]) == Names(ns) + {n.name}
    ensures Blocks(ns + [n], tails, taps, indent) == Blocks(ns, tails, taps, indent) + Block(n, tails, taps, indent)
  {
    assert (ns + [n])[..|ns|] == ns;
  }

  /** A tree for one more module, written after the others. */
  lemma FamilyStep(ns: seq<Node>, n: Node, done: set<string>, h: map<string, set<string>>, fuel: nat)
    requires Family(ns, done, h, fuel) && n.name !in done && Fits(n, h, fuel)
    ensures Family(ns + [n], done + {n.name}, h, fuel)
  {
    assert (ns + [n])[..|ns|] == ns;
    assert forall k :: 0 <= k < |ns| ==> (ns + [n])[k] == ns[k];
  }

  /** The state of a loop writing the modules `names` in the set's own order: those not in
      `rest` have their trees, in writing order, and `lines` are their blocks. */
  ghost predicate Written(names: set<string>, rest: set<string>, ns: seq<Node>, lines: seq<Line>,
                          h: map<string, set<string>>, fuel: nat, tails: map<string, nat>,
                          taps: seq<Tap>, indent: nat)
  {
    rest <= names && Family(ns, names - rest, h, fuel) && lines == Blocks(ns, tails, taps, indent)
  }

  /** Writing the tree of one more module of `rest`. */
  lemma WrittenStep(names: set<string>, rest: set<string>, ns: seq<Node>, lines: seq<Line>,
                    h: map<string, set<string>>, fuel: nat, tails: map<string, nat>,
                    taps: seq<Tap>, indent: nat, n: Node)
    requires Written(names, rest, ns, lines, h, fuel, tails, taps, indent)
    requires n.name in rest && Fits(n, h, fuel)
    ensures Written(names, rest - {n.name}, ns + [n], lines + Block(n, tails, taps, indent),
                    h, fuel, tails, taps, indent)
  {
    Snoc(ns, n, tails, taps, indent);
    FamilyStep(ns, n, names - rest, h, fuel);
    assert names - (rest - {n.name}) == (names - rest) + {n.name};
  }

  /** Every block is properly nested. */
  lemma BlockNested(n: Node, tails: map<string, nat>, taps: seq<Tap>, indent: nat)
    ensures Nested(Block(n, tails, taps, indent))
    decreases n
  {
    BlocksNested(n.kids, tails, taps, indent + 1);
    ScopeNested(n.name, indent, DeclsOf(n.name, tails, taps, indent), Blocks(n.kids, tails, taps, indent + 1));
  }

  lemma BlocksNested(ns: seq<Node>, tails: map<string, nat>, taps: seq<Tap>, indent: nat)
    ensures Nested(Blocks(ns, tails, taps, indent))
    decreases ns
  {
    if ns == [] {
      FlatNested([]);
    } else {
      BlocksNested(ns[..|ns| - 1], tails, taps, indent);
      BlockNested(ns[|ns| - 1], tails, taps, indent);
      NestedAppend(Blocks(ns[..|ns| - 1], tails, taps, indent), Block(ns[|ns| - 1], tails, taps, indent));
    }
  }

  /** A block opens with its module's scope and declarations, and holds its children's blocks. */
  lemma BlockParts(n: Node, tails: map<string, nat>, taps: seq<Tap>, indent: nat)
    ensures Infix(Opening(n.name, tails, taps, indent), Block(n, tails, taps, indent))
    ensures Infix(Blocks(n.kids, tails, taps, indent + 1), Block(n, tails, taps, indent))
  {
    var o, d := [ScopeOpen(indent, n.name)], DeclsOf(n.name, tails, taps, indent);
    var b, u := Blocks(n.kids, tails, taps, indent + 1), [Upscope(indent)];
    InfixMiddle([], o + d, b + u);
    assert [] + (o + d) + (b + u) == Block(n, tails, taps, indent);
    assert o + d == Opening(n.name, tails, taps, indent);
    InfixMiddle(o + d, b, u);
  }

  /** Each tree's block occurs among the blocks. */
  lemma {:induction false} BlockInBlocks(ns: seq<Node>, k: nat, tails: map<string, nat>, taps: seq<Tap>, indent: nat)
    requires k < |ns|
    ensures Infix(Block(ns[k], tails, taps, indent), Blocks(ns, tails, taps, indent))
  {
    var front := ns[..|ns| - 1];
    var f, l := Blocks(front, tails, taps, indent), Block(ns[|ns| - 1], tails, taps, indent);
    var all := Blocks(ns, tails, taps, indent);
    assert all == f + l;
    if k == |ns| - 1 {
      InfixMiddle(f, l, []);
      assert f + l + [] == all;
    } else {
      BlockInBlocks(front, k, tails, taps, indent);
      assert front[k] == ns[k];
      InfixMiddle([], f, l);
      assert [] + f + l == all;
      InfixTrans(Block(ns[k], tails, taps, indent), f, all);
    }
  }

  /** dump_module: the scope of module `name`, holding the declarations of the signals of
      the last tap whose path ends in it, then the scopes of its children, each one deeper.
      The source recurses without bound; here at most `fuel` levels of children are written.
      The lines are exactly the block of a tree for `name` that has, down to the fuel's
      depth, one subtree for each child the hierarchy records. */
  method DumpModule(name: string, hierarchy: map<string, set<string>>, tails: map<string, nat>,
                    taps: seq<Tap>, indent: nat, fuel: nat) returns (lines: seq<Line>, ghost tree: Node)
    requires forall x :: x in tails ==> tails[x] < |taps|
    ensures tree.name == name && Fits(tree, hierarchy, fuel)
    ensures lines == Block(tree, tails, taps, indent)
    decreases fuel, 1
  {
    var decls := [];
    if name in tails {
      var tap := taps[tails[name]];
      for k := 0 to |tap.signals|
        invariant decls == Decls(tap.signals[..k], indent + 1)
      {
        var signal := tap.signals[k];
        decls := decls + [VarDecl(indent + 1, signal.width, signal.id, signal.name)];
      }
      assert tap.signals[..|tap.signals|] == tap.signals;
    }
    var body := [];
    ghost var kids := [];
    if fuel > 0 && name in hierarchy {
      body, kids := DumpChildren(hierarchy[name], hierarchy, tails, taps, indent + 1, fuel);
    }
    tree := Node(name, kids);
    lines := Scope(name, indent, decls, body);
  }

  /** The loop of dump_module over a module's children, in the set's own order: one subtree
      for each child, no child twice. */
  method DumpChildren(children: set<string>, hierarchy: map<string, set<string>>,
                      tails: map<string, nat>, taps: seq<Tap>, indent: nat, fuel: nat)
    returns (body: seq<Line>, ghost kids: seq<Node>)
    requires forall x :: x in tails ==> tails[x] < |taps|
    requires fuel > 0
    ensures Family(kids, children, hierarchy, fuel - 1)
    ensures body == Blocks(kids, tails, taps, indent)
    decreases fuel, 0
  {
    var rest := children;
    body, kids := [], [];
    while rest != {}
      invariant Written(children, rest, kids, body, hierarchy, fuel - 1, tails, taps, indent)
      decreases |rest|
    {
      var child :| child in rest;
      var sub, tree := DumpModule(child, hierarchy, tails, taps, indent, fuel - 1);
      WrittenStep(children, rest, kids, body, hierarchy, fuel - 1, tails, taps, indent, tree);
      body, kids := body + sub, kids + [tree];
      rest := rest - {child};
    }
  }

  /** The fixed lines that open the header: version, timescale, the top scope and the clock,
      which is signal 0. */
  function Preamble(): seq<Line>
  {
    [Version, Timescale, ScopeOpen(0, "TOP"), VarDecl(1, 1, 0, "clk")]
  }

  /** The complete header around the head modules' scopes. */
  function Enclose(modules: seq<Line>): seq<Line>
  {
    Preamble() + modules + [Upscope(0), EndDefinitions]
  }

  /** The header's fixed frame: it opens with the preamble and ends by closing the top scope
      and the definitions. */
  ghost predicate Framed(lines: seq<Line>)
  {
    |lines| >= 6 && lines[..4] == Preamble() && lines[|lines| - 2..] == [Upscope(0), EndDefinitions]
  }

  /** Enclosing nested scopes in the top scope keeps the header nested and framed. */
  lemma EncloseNested(modules: seq<Line>)
    requires Nested(modules)
    ensures Nested(Enclose(modules)) && Framed(Enclose(modules))
  {
    var clock := [VarDecl(1, 1, 0, "clk")];
    FlatNested(clock);
    NestedAppend(clock, modules);
    NestedWrap(ScopeOpen(0, "TOP"), clock + modules, Upscope(0));
    var top := [ScopeOpen(0, "TOP")] + (clock + modules) + [Upscope(0)];
    FlatNested([Version, Timescale]);
    FlatNested([EndDefinitions]);
    NestedAppend([Version, Timescale], top);
    NestedAppend([Version, Timescale] + top, [EndDefinitions]);
    var lines := Enclose(modules);
    assert lines == [Version, Timescale] + top + [EndDefinitions];
    assert lines[..4] == Preamble();
    assert lines[|lines| - 2..] == [Upscope(0), EndDefinitions];
  }

  // ----- what the header declares -----

  /** Tap `j` is the last one whose path ends in its leaf module. */
  ghost predicate LastOfLeaf(taps: seq<Tap>, j: nat)
    requires Named(taps) && j < |taps|
  {
    forall i :: j < i < |taps| ==> Leaf(taps[i]) != Leaf(taps[j])
  }

  /** What a tap's leaf scope opens with: the scope at the depth of its path, then the
      declarations of its signals one level deeper. */
  function DeclBlock(t: Tap): seq<Line>
    requires Tokens(t) != []
  {
    [ScopeOpen(|Tokens(t)|, Leaf(t))] + Decls(t.signals, |Tokens(t)| + 1)
  }

  /** Every tap that is the last to end in its leaf module has that scope written, at the
      depth of its path, with its signals declared right inside. */
  ghost predicate Declared(taps: seq<Tap>, lines: seq<Line>)
    requires Named(taps)
  {
    forall j :: 0 <= j < |taps| && LastOfLeaf(taps, j) ==> Infix(DeclBlock(taps[j]), lines)
  }

  /** `p` follows links from each module to the next. */
  ghost predicate Chain(links: set<(string, string)>, p: seq<string>)
  {
    forall k :: 1 <= k < |p| ==> Link(p, k) in links
  }

  /** No chain of links visits a module twice. */
  ghost predicate Acyclic(links: set<(string, string)>)
  {
    forall p :: Chain(links, p) ==> Distinct(p)
  }

  /** A recorded link goes from a parent in the map to one of its children. */
  lemma PairsHas(h: map<string, set<string>>, a: string, b: string)
    requires (a, b) in Pairs(h)
    ensures a in h && b in h[a]
  {
    var x, y :| x in h && y in h[x] && (x, y) == (a, b);
  }

  /** Every module of a chain but the last is a parent in the map. */
  lemma ChainKeys(h: map<string, set<string>>, p: seq<string>)
    requires Chain(Pairs(h), p)
    ensures forall k :: 0 <= k < |p| - 1 ==> p[k] in h
  {
    forall k | 0 <= k < |p| - 1
      ensures p[k] in h
    {
      assert Link(p, k + 1) in Pairs(h);
      PairsHas(h, p[k], p[k + 1]);
    }
  }

  /** A chain extended by a link from its last module. */
  lemma ChainSnoc(links: set<(string, string)>, p: seq<string>, c: string)
    requires p != [] && Chain(links, p) && (p[|p| - 1], c) in links
    ensures Chain(links, p + [c])
  {
    var r := p + [c];
    forall k | 1 <= k < |r|
      ensures Link(r, k) in links
    {
      if k < |p| {
        assert Link(r, k) == Link(p, k);
      }
    }
  }

  /** In a hierarchy without cycles a chain of modules that have children is no longer than
      the hierarchy has parents. */
  lemma ChainShort(h: map<string, set<string>>, p: seq<string>)
    requires Acyclic(Pairs(h)) && Chain(Pairs(h), p) && p != []
    ensures |p| - 1 <= |h|
  {
    ChainKeys(h, p);
    var q := p[..|p| - 1];
    assert Distinct(p);
    DistinctCard(q, h.Keys);
  }

  /** Every path is a chain of the recorded links. */
  lemma {:induction false} PathLinks(taps: seq<Tap>, j: nat)
    requires j < |taps|
    ensures Chain(Edges(taps), Tokens(taps[j]))
  {
    var n := |taps| - 1;
    var ts := Tokens(taps[j]);
    if j < n {
      PathLinks(taps[..n], j);
      assert taps[..n][j] == taps[j];
    }
    forall k | 1 <= k < |ts|
      ensures Link(ts, k) in Edges(taps)
    {
      if j == n {
        assert Link(ts, k) in PathEdges(ts);
      }
    }
  }

  /** Every path's first segment is a head. */
  lemma {:induction false} HeadsHas(taps: seq<Tap>, j: nat)
    requires Named(taps) && j < |taps|
    ensures Tokens(taps[j])[0] in Heads(taps)
  {
    var n := |taps| - 1;
    if j < n {
      assert Named(taps[..n]) && taps[..n][j] == taps[j];
      HeadsHas(taps[..n], j);
    }
  }

  /** A child the hierarchy records has its own subtree, whose block lies inside the parent's. */
  lemma ChildBlock(n: Node, c: string, h: map<string, set<string>>, fuel: nat,
                   tails: map<string, nat>, taps: seq<Tap>, indent: nat) returns (kid: Node)
    requires Fits(n, h, fuel) && fuel > 0 && (n.name, c) in Pairs(h)
    ensures kid.name == c && Fits(kid, h, fuel - 1)
    ensures Infix(Block(kid, tails, taps, indent + 1), Block(n, tails, taps, indent))
  {
    PairsHas(h, n.name, c);
    var k := NamesIndex(n.kids, c);
    kid := n.kids[k];
    BlockInBlocks(n.kids, k, tails, taps, indent + 1);
    BlockParts(n, tails, taps, indent);
    InfixTrans(Block(kid, tails, taps, indent + 1), Blocks(n.kids, tails, taps, indent + 1), Block(n, tails, taps, indent));
  }

  /** Following a path down from the tree of its segment `i`: the scope of its last segment,
      with that module's declarations, is written one level deeper for each further segment. */
  lemma {:induction false} PathReached(n: Node, ts: seq<string>, i: nat, h: map<string, set<string>>,
                                       fuel: nat, tails: map<string, nat>, taps: seq<Tap>, indent: nat)
    requires i < |ts| && n.name == ts[i] && Fits(n, h, fuel) && fuel >= |ts| - 1 - i
    requires forall k :: i < k < |ts| ==> Link(ts, k) in Pairs(h)
    ensures Infix(Opening(ts[|ts| - 1], tails, taps, indent + |ts| - 1 - i), Block(n, tails, taps, indent))
    decreases |ts| - i
  {
    if i == |ts| - 1 {
      BlockParts(n, tails, taps, indent);
    } else {
      var target := Opening(ts[|ts| - 1], tails, taps, indent + |ts| - 1 - i);
      assert Link(ts, i + 1) == (n.name, ts[i + 1]);
      var kid := ChildBlock(n, ts[i + 1], h, fuel, tails, taps, indent);
      PathReached(kid, ts, i + 1, h, fuel - 1, tails, taps, indent + 1);
      InfixTrans(target, Block(kid, tails, taps, indent + 1), Block(n, tails, taps, indent));
    }
  }

  /** A path whose first segment is a head, and whose every link is recorded, has the scope
      of its last segment among the heads' blocks, at the depth of the path. */
  lemma HeadReached(trees: seq<Node>, k: nat, ts: seq<string>, h: map<string, set<string>>,
                    tails: map<string, nat>, taps: seq<Tap>)
    requires k < |trees| && ts != [] && trees[k].name == ts[0] && Fits(trees[k], h, |h|)
    requires |ts| - 1 <= |h| && forall i :: 0 < i < |ts| ==> Link(ts, i) in Pairs(h)
    ensures Infix(Opening(ts[|ts| - 1], tails, taps, |ts|), Blocks(trees, tails, taps, 1))
  {
    PathReached(trees[k], ts, 0, h, |h|, tails, taps, 1);
    BlockInBlocks(trees, k, tails, taps, 1);
    InfixTrans(Opening(ts[|ts| - 1], tails, taps, |ts|), Block(trees[k], tails, taps, 1), Blocks(trees, tails, taps, 1));
  }

  /** The leaf scope of the last tap ending in it is among the heads' blocks. */
  lemma LeafDeclared(taps: seq<Tap>, h: map<string, set<string>>, tails: map<string, nat>,
                     trees: seq<Node>, j: nat)
    requires Named(taps) && Pairs(h) == Edges(taps) && TailsOf(taps, tails)
    requires Family(trees, Heads(taps), h, |h|) && Acyclic(Edges(taps))
    requires j < |taps| && LastOfLeaf(taps, j)
    ensures Infix(DeclBlock(taps[j]), Blocks(trees, tails, taps, 1))
  {
    var ts := Tokens(taps[j]);
    PathLinks(taps, j);
    ChainShort(h, ts);
    HeadsHas(taps, j);
    var k := NamesIndex(trees, ts[0]);
    HeadReached(trees, k, ts, h, tails, taps);
    LeafOpening(taps, tails, j);
  }

  /** The last tap ending in a leaf module supplies that module's declarations. */
  lemma LeafOpening(taps: seq<Tap>, tails: map<string, nat>, j: nat)
    requires Named(taps) && TailsOf(taps, tails) && j < |taps| && LastOfLeaf(taps, j)
    ensures DeclBlock(taps[j]) == Opening(Leaf(taps[j]), tails, taps, |Tokens(taps[j])|)
  {
    assert tails[Leaf(taps[j])] == j;
  }

  /** With no cycle among the links, every tap that is the last to end in its leaf module has
      its scope and declarations in the header. */
  lemma HeaderDeclares(taps: seq<Tap>, h: map<string, set<string>>, tails: map<string, nat>, trees: seq<Node>)
    requires Named(taps) && Pairs(h) == Edges(taps) && TailsOf(taps, tails)
    requires Family(trees, Heads(taps), h, |h|) && Acyclic(Edges(taps))
    ensures Declared(taps, Enclose(Blocks(trees, tails, taps, 1)))
  {
    var modules := Blocks(trees, tails, taps, 1);
    InfixMiddle(Preamble(), modules, [Upscope(0), EndDefinitions]);
    forall j | 0 <= j < |taps| && LastOfLeaf(taps, j)
      ensures Infix(DeclBlock(taps[j]), Enclose(modules))
    {
      LeafDeclared(taps, h, tails, trees, j);
      InfixTrans(DeclBlock(taps[j]), modules, Enclose(modules));
    }
  }

  /** Every head has its scope opened one level below the top. */
  lemma HeadsOpened(trees: seq<Node>, heads: set<string>, h: map<string, set<string>>, fuel: nat,
                    tails: map<string, nat>, taps: seq<Tap>)
    requires Family(trees, heads, h, fuel)
    ensures forall hd :: hd in heads ==> ScopeOpen(1, hd) in Enclose(Blocks(trees, tails, taps, 1))
  {
    var modules := Blocks(trees, tails, taps, 1);
    InfixMiddle(Preamble(), modules, [Upscope(0), EndDefinitions]);
    forall hd | hd in heads
      ensures ScopeOpen(1, hd) in Enclose(modules)
    {
      var k := NamesIndex(trees, hd);
      var open := Opening(hd, tails, taps, 1);
      BlockParts(trees[k], tails, taps, 1);
      BlockInBlocks(trees, k, tails, taps, 1);
      InfixTrans(open, Block(trees[k], tails, taps, 1), modules);
      InfixTrans(open, modules, Enclose(modules));
      var i :| 0 <= i <= |Enclose(modules)| && open <= Enclose(modules)[i..];
      assert Enclose(modules)[i] == open[0];
    }
  }

  /** Without cycles among the links, the fuel dump_header allows never cuts the recursion
      short: the trees written are the ones any larger fuel would write. */
  lemma FuelSuffices(trees: seq<Node>, heads: set<string>, h: map<string, set<string>>, more: nat)
    requires NoEmptyEntry(h) && Acyclic(Pairs(h)) && Family(trees, heads, h, |h|)
    ensures Family(trees, heads, h, |h| + more)
  {
    forall k | 0 <= k < |trees|
      ensures Fits(trees[k], h, |h| + more)
    {
      Saturated(trees[k], [], h, |h|, more);
    }
  }

  /** A tree reached along the chain `p` with the fuel left after `|p|` levels is the tree
      more fuel would give. */
  lemma Saturated(n: Node, p: seq<string>, h: map<string, set<string>>, fuel: nat, more: nat)
    requires NoEmptyEntry(h) && Acyclic(Pairs(h))
    requires Chain(Pairs(h), p + [n.name]) && |p| + fuel == |h| && Fits(n, h, fuel)
    ensures Fits(n, h, fuel + more)
    decreases n
  {
    if n.name in h {
      var q := p + [n.name];
      var c :| c in h[n.name];
      ChainSnoc(Pairs(h), q, c);
      ChainShort(h, q + [c]);
      forall k | 0 <= k < |n.kids|
        ensures Fits(n.kids[k], h, fuel - 1 + more)
      {
        NamesHas(n.kids, k);
        ChainSnoc(Pairs(h), q, n.kids[k].name);
        Saturated(n.kids[k], q, h, fuel - 1, more);
      }
    }
  }

  /** dump_header: the preamble, then the block of each head module, each head once, then
      the lines closing the top scope and the definitions. The hierarchy and the leaf map it
      builds are those of the taps' paths; recursion is allowed as many levels as the
      hierarchy has parents, which never cuts a hierarchy without cycles short. The header is
      nested and framed, opens a scope for every head and, without cycles, declares every
      tap's signals in its leaf's scope. */
  method DumpHeader(taps: seq<Tap>)
    returns (lines: seq<Line>, hierarchy: map<string, set<string>>, tails: map<string, nat>,
             ghost trees: seq<Node>)
    requires Named(taps)
    ensures Pairs(hierarchy) == Edges(taps) && NoEmptyEntry(hierarchy) && TailsOf(taps, tails)
    ensures Family(trees, Heads(taps), hierarchy, |hierarchy|)
    ensures lines == Enclose(Blocks(trees, tails, taps, 1))
    ensures Nested(lines) && Framed(lines)
    ensures forall hd :: hd in Heads(taps) ==> ScopeOpen(1, hd) in lines
    ensures Acyclic(Edges(taps)) ==> Declared(taps, lines)
  {
    var heads;
    hierarchy, heads, tails := BuildHierarchy(taps);
    var modules;
    modules, trees := DumpHeads(heads, hierarchy, tails, taps);
    BlocksNested(trees, tails, taps, 1);
    EncloseNested(modules);
    HeadsOpened(trees, heads, hierarchy, |hierarchy|, tails, taps);
    if Acyclic(Edges(taps)) {
      HeaderDeclares(taps, hierarchy, tails, trees);
    }
    lines := Enclose(modules);
  }

  /** The loop of dump_header over the head modules, in the set's own order: one tree for
      each head, no head twice, each given as many levels as the hierarchy has parents. */
  method DumpHeads(heads: set<string>, hierarchy: map<string, set<string>>, tails: map<string, nat>,
                   taps: seq<Tap>) returns (modules: seq<Line>, ghost trees: seq<Node>)
    requires forall x :: x in tails ==> tails[x] < |taps|
    ensures Family(trees, heads, hierarchy, |hierarchy|)
    ensures modules == Blocks(trees, tails, taps, 1)
  {
    var rest := heads;
    modules, trees := [], [];
    while rest != {}
      invariant Written(heads, rest, trees, modules, hierarchy, |hierarchy|, tails, taps, 1)
      decreases |rest|
    {
      var head :| head in rest;
      var sub, tree := DumpModule(head, hierarchy, tails, taps, 1, |hierarchy|);
      WrittenStep(heads, rest, trees, modules, hierarchy, |hierarchy|, tails, taps, 1, tree);
      modules, trees := modules + sub, trees + [tree];
      rest := rest - {head};
    }
  }
}

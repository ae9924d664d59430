/**
 * The netlist reader: each line, stripped of surrounding whitespace, is skipped
 * when blank or a `#` comment; otherwise its whitespace-separated fields are read
 * as `<node> <node> [weight]`, both node names starting with `N`, and the edge is
 * added to the graph (default weight 1, a repeated pair overwriting the weight).
 * Any other line is skipped as malformed.
 */
module Netlist {
  import opened Seqs
  import opened Graphs

  // ---------------------------------------------------------------------------
  // Whitespace, strip and split
  // ---------------------------------------------------------------------------

  /** The characters Python's str.isspace accepts, which strip() and split() remove. */
  predicate IsSpace(c: char)
  {
    || ('\U{0009}' <= c <= '\U{000D}')
    || ('\U{001C}' <= c <= '\U{0020}')
    || c == '\U{0085}' || c == '\U{00A0}' || c == '\U{1680}'
    || ('\U{2000}' <= c <= '\U{200A}')
    || c == '\U{2028}' || c == '\U{2029}' || c == '\U{202F}' || c == '\U{205F}' || c == '\U{3000}'
  }

  predicate NoSpace(s: string)
  {
    forall k | 0 <= k < |s| :: !IsSpace(s[k])
  }

  /** `s` without its leading whitespace. */
  function TrimLeft(s: string): (r: string)
    ensures |r| <= |s| && r == s[|s| - |r|..]
    ensures forall k | 0 <= k < |s| - |r| :: IsSpace(s[k])
    ensures r == [] || !IsSpace(r[0])
    decreases |s|
  {
    if s != [] && IsSpace(s[0]) then TrimLeft(s[1..]) else s
  }

  /** `s` without its trailing whitespace. */
  function TrimRight(s: string): (r: string)
    ensures |r| <= |s| && r == s[..|r|]
    ensures forall k | |r| <= k < |s| :: IsSpace(s[k])
    ensures r == [] || !IsSpace(r[|r| - 1])
    decreases |s|
  {
    if s != [] && IsSpace(s[|s| - 1]) then TrimRight(s[..|s| - 1]) else s
  }

  /** str.strip(): both ends trimmed. */
  function Strip(s: string): string
  {
    TrimRight(TrimLeft(s))
  }

  /** The longest prefix of `s` without whitespace. */
  function Word(s: string): (r: string)
    ensures |r| <= |s| && r == s[..|r|] && NoSpace(r)
    ensures |r| < |s| ==> IsSpace(s[|r|])
    ensures s != [] && !IsSpace(s[0]) ==> r != []
    decreases |s|
  {
    if s == [] || IsSpace(s[0]) then [] else [s[0]] + Word(s[1..])
  }

  /** str.split() with no argument: the maximal runs of non-whitespace, in order. */
  function Split(s: string): (parts: seq<string>)
    ensures forall i | 0 <= i < |parts| :: parts[i] != [] && NoSpace(parts[i])
    decreases |s|
  {
    if s == [] then []
    else if IsSpace(s[0]) then Split(s[1..])
    else
      var w := Word(s);
      [w] + Split(s[|w|..])
  }

  /** Words joined by single spaces. */
  function Unwords(ws: seq<string>): string
  {
    if ws == [] then "" else if |ws| == 1 then ws[0] else ws[0] + " " + Unwords(ws[1..])
  }

  predicate Words(ws: seq<string>)
  {
    forall i | 0 <= i < |ws| :: ws[i] != [] && NoSpace(ws[i])
  }

  lemma {:induction false} WordOfJoined(w: string, rest: string)
    requires NoSpace(w) && (rest == [] || IsSpace(rest[0]))
    ensures Word(w + rest) == w
    decreases |w|
  {
    if w != [] {
      assert (w + rest)[1..] == w[1..] + rest;
      WordOfJoined(w[1..], rest);
    } else {
      assert w + rest == rest;
    }
  }

  /** A leading whitespace character does not change the split. */
  lemma {:induction false} SplitSpaceCons(c: char, r: string)
    requires IsSpace(c)
    ensures Split([c] + r) == Split(r)
  {
    assert ([c] + r)[1..] == r;
  }

  /** A word followed by whitespace is split off as the first part. */
  lemma {:induction false} SplitWordCons(w: string, rest: string)
    requires w != [] && NoSpace(w) && (rest == [] || IsSpace(rest[0]))
    ensures Split(w + rest) == [w] + Split(rest)
  {
    var s := w + rest;
    assert s[0] == w[0];
    WordOfJoined(w, rest);
    assert s[|w|..] == rest;
  }

  /** The words after the first are words too. */
  lemma {:induction false} WordsTail(ws: seq<string>)
    requires Words(ws) && ws != []
    ensures Words(ws[1..])
  {
    forall i | 0 <= i < |ws[1..]|
      ensures ws[1..][i] != [] && NoSpace(ws[1..][i])
    {
      assert ws[1..][i] == ws[i + 1];
    }
  }

  /** Splitting words joined by spaces gives the words back. */
  lemma {:induction false} SplitUnwords(ws: seq<string>)
    requires Words(ws)
    ensures Split(Unwords(ws)) == ws
    decreases |ws|
  {
    if ws == [] {
    } else if |ws| == 1 {
      SplitWordCons(ws[0], []);
      assert ws[0] + [] == ws[0];
    } else {
      var rest := Unwords(ws[1..]);
      assert Unwords(ws) == ws[0] + ([' '] + rest);
      SplitWordCons(ws[0], [' '] + rest);
      SplitSpaceCons(' ', rest);
      WordsTail(ws);
      SplitUnwords(ws[1..]);
      assert [ws[0]] + ws[1..] == ws;
    }
  }

  /** Every character of `t` is whitespace. */
  predicate AllSpace(t: string)
  {
    forall k | 0 <= k < |t| :: IsSpace(t[k])
  }

  /** gaps[0] + ws[0] + gaps[1] + ... + ws[n - 1] + gaps[n]. */
  function Interleave(gaps: seq<string>, ws: seq<string>): string
    requires |gaps| == |ws| + 1
    decreases |ws|
  {
    if ws == [] then gaps[0] else gaps[0] + ws[0] + Interleave(gaps[1..], ws[1..])
  }

  /** `s` is the words `ws` laid out between whitespace gaps, where a gap
      between two words is not empty and the outer gaps may be. */
  ghost predicate SplitsAs(s: string, ws: seq<string>, gaps: seq<string>)
  {
    && |gaps| == |ws| + 1
    && (forall i | 0 <= i < |gaps| :: AllSpace(gaps[i]))
    && (forall i | 0 < i < |ws| :: gaps[i] != [])
    && s == Interleave(gaps, ws)
  }

  /** Leading whitespace of any length does not change the split. */
  lemma {:induction false} SplitSpacePrefix(t: string, r: string)
    requires AllSpace(t)
    ensures Split(t + r) == Split(r)
    decreases |t|
  {
    if t == [] {
      assert t + r == r;
    } else {
      assert t + r == [t[0]] + (t[1..] + r);
      SplitSpaceCons(t[0], t[1..] + r);
      SplitSpacePrefix(t[1..], r);
    }
  }

  /** Any layout of words between whitespace gaps splits back into exactly
      those words: leading, trailing and repeated whitespace are dropped. */
  lemma {:induction false} SplitInterleave(s: string, ws: seq<string>, gaps: seq<string>)
    requires Words(ws) && SplitsAs(s, ws, gaps)
    ensures Split(s) == ws
    decreases |ws|
  {
    if ws == [] {
      assert s == gaps[0] + [];
      SplitSpacePrefix(gaps[0], []);
    } else {
      var rest := Interleave(gaps[1..], ws[1..]);
      assert s == gaps[0] + (ws[0] + rest);
      SplitSpacePrefix(gaps[0], ws[0] + rest);
      SplitsAsTail(s, ws, gaps);
      LayoutStart(rest, ws[1..], gaps[1..]);
      SplitWordCons(ws[0], rest);
      WordsTail(ws);
      SplitInterleave(rest, ws[1..], gaps[1..]);
      assert [ws[0]] + ws[1..] == ws;
    }
  }

  /** Dropping the first gap and word of a layout leaves a layout of the rest. */
  lemma {:induction false} SplitsAsTail(s: string, ws: seq<string>, gaps: seq<string>)
    requires SplitsAs(s, ws, gaps) && ws != []
    ensures SplitsAs(Interleave(gaps[1..], ws[1..]), ws[1..], gaps[1..])
  {
    forall i | 0 <= i < |gaps[1..]| ensures AllSpace(gaps[1..][i]) {
      assert gaps[1..][i] == gaps[i + 1];
    }
    forall i | 0 < i < |ws[1..]| ensures gaps[1..][i] != [] {
      assert gaps[1..][i] == gaps[i + 1];
    }
  }

  /** A layout whose first gap is not empty, or which holds no word, is
      empty or starts with whitespace. */
  lemma {:induction false} LayoutStart(t: string, ws: seq<string>, gaps: seq<string>)
    requires SplitsAs(t, ws, gaps) && (ws != [] ==> gaps[0] != [])
    ensures t == [] || IsSpace(t[0])
  {
    if ws == [] {
      assert t == gaps[0];
    } else {
      assert t == gaps[0] + (ws[0] + Interleave(gaps[1..], ws[1..]));
      assert t[0] == gaps[0][0];
    }
  }

  /** The split of any string lays it out as its parts between whitespace
      gaps; the first gap is empty exactly when `s` does not start with
      whitespace. */
  lemma {:induction false} SplitGaps(s: string) returns (gaps: seq<string>)
    ensures SplitsAs(s, Split(s), gaps)
    ensures gaps[0] == [] <==> s == [] || !IsSpace(s[0])
    decreases |s|
  {
    if s == [] {
      gaps := [[]];
    } else if IsSpace(s[0]) {
      var g' := SplitGaps(s[1..]);
      assert s == [s[0]] + s[1..];
      gaps := LayoutSpace(s[0], s[1..], Split(s[1..]), g');
    } else {
      var w := Word(s);
      var rest := s[|w|..];
      var g' := SplitGaps(rest);
      assert s == w + rest;
      assert Split(s) == [w] + Split(rest);
      assert Split(rest) != [] ==> g'[0] != [] by {
        if Split(rest) != [] {
          assert rest != [] && rest[0] == s[|w|];
        }
      }
      gaps := LayoutWord(w, rest, Split(rest), g');
    }
  }

  /** A whitespace character in front of a layout joins its first gap. */
  lemma {:induction false} LayoutSpace(c: char, t: string, ws: seq<string>, g': seq<string>)
    returns (gaps: seq<string>)
    requires IsSpace(c) && SplitsAs(t, ws, g')
    ensures SplitsAs([c] + t, ws, gaps) && gaps[0] != []
  {
    gaps := [[c] + g'[0]] + g'[1..];
    assert gaps[1..] == g'[1..];
    if ws != [] {
      assert t == g'[0] + ws[0] + Interleave(g'[1..], ws[1..]);
    }
    forall i | 0 <= i < |gaps| ensures AllSpace(gaps[i]) {
      if i > 0 { assert gaps[i] == g'[i]; }
    }
    forall i | 0 < i < |ws| ensures gaps[i] != [] {
      assert gaps[i] == g'[i];
    }
  }

  /** A word in front of a layout whose first gap separates it from the next
      word becomes the first word, after an empty gap. */
  lemma {:induction false} LayoutWord(w: string, t: string, ws: seq<string>, g': seq<string>)
    returns (gaps: seq<string>)
    requires SplitsAs(t, ws, g') && (ws != [] ==> g'[0] != [])
    ensures SplitsAs(w + t, [w] + ws, gaps) && gaps[0] == []
  {
    gaps := [[]] + g';
    assert gaps[1..] == g' && ([w] + ws)[1..] == ws;
    assert w + t == [] + w + t;
    forall i | 0 <= i < |gaps| ensures AllSpace(gaps[i]) {
      if i > 0 { assert gaps[i] == g'[i - 1]; }
    }
    forall i | 0 < i < |[w] + ws| ensures gaps[i] != [] {
      assert gaps[i] == g'[i - 1];
    }
  }

  /** str.split() returns the one sequence of words that lays the string out
      between whitespace gaps: such a layout exists, and any layout of any
      words gives back those same words. */
  lemma {:induction false} SplitSpec(s: string)
    ensures exists gaps :: SplitsAs(s, Split(s), gaps)
    ensures forall ws, gaps | Words(ws) && SplitsAs(s, ws, gaps) :: ws == Split(s)
  {
    var gaps := SplitGaps(s);
    forall ws, gaps | Words(ws) && SplitsAs(s, ws, gaps) ensures ws == Split(s) {
      SplitInterleave(s, ws, gaps);
    }
  }

  lemma {:induction false} UnwordsLength(ws: seq<string>)
    requires ws != []
    ensures |Unwords(ws)| >= |ws[0]|
    ensures Unwords(ws)[..|ws[0]|] == ws[0]
    decreases |ws|
  {
    if |ws| > 1 {
      assert Unwords(ws) == ws[0] + (" " + Unwords(ws[1..]));
    }
  }

  /** Trailing whitespace of any length does not change the split. */
  lemma {:induction false} SplitSpaceSuffix(r: string, t: string)
    requires AllSpace(t)
    ensures Split(r + t) == Split(r)
    decreases |r|
  {
    if r == [] {
      assert r + t == t + [];
      SplitSpacePrefix(t, []);
    } else if IsSpace(r[0]) {
      assert r + t == [r[0]] + (r[1..] + t);
      SplitSpaceCons(r[0], r[1..] + t);
      SplitSpaceSuffix(r[1..], t);
    } else {
      var w := Word(r);
      var rest := r[|w|..];
      assert r == w + rest && r + t == w + (rest + t);
      assert rest + t == [] || IsSpace((rest + t)[0]) by {
        if rest == [] {
          assert rest + t == t;
        } else {
          assert (rest + t)[0] == r[|w|];
        }
      }
      SplitWordCons(w, rest + t);
      SplitWordCons(w, rest);
      SplitSpaceSuffix(rest, t);
    }
  }

  /** Dropping the leading whitespace does not change the split. */
  lemma {:induction false} SplitTrimLeft(s: string)
    ensures Split(TrimLeft(s)) == Split(s)
  {
    var l := TrimLeft(s);
    var lead := s[..|s| - |l|];
    assert s == lead + l;
    assert AllSpace(lead) by {
      forall k | 0 <= k < |lead| ensures IsSpace(lead[k]) {
        assert lead[k] == s[k];
      }
    }
    SplitSpacePrefix(lead, l);
  }

  /** Dropping the trailing whitespace does not change the split. */
  lemma {:induction false} SplitTrimRight(s: string)
    ensures Split(TrimRight(s)) == Split(s)
  {
    var r := TrimRight(s);
    var trail := s[|r|..];
    assert s == r + trail;
    assert AllSpace(trail) by {
      forall k | 0 <= k < |trail| ensures IsSpace(trail[k]) {
        assert trail[k] == s[|r| + k];
      }
    }
    SplitSpaceSuffix(r, trail);
  }

  /** str.strip() before str.split() changes nothing. */
  lemma {:induction false} SplitStrip(s: string)
    ensures Split(Strip(s)) == Split(s)
  {
    SplitTrimLeft(s);
    SplitTrimRight(TrimLeft(s));
  }

  /** Words joined by spaces have nothing to strip at either end. */
  lemma {:induction false} StripUnwords(ws: seq<string>)
    requires Words(ws)
    ensures Strip(Unwords(ws)) == Unwords(ws)
  {
    var s := Unwords(ws);
    if ws != [] {
      UnwordsLength(ws);
      assert s[0] == ws[0][0];
      UnwordsLast(ws);
    }
  }

  lemma {:induction false} UnwordsLast(ws: seq<string>)
    requires Words(ws) && ws != []
    ensures |Unwords(ws)| >= 1 && !IsSpace(Unwords(ws)[|Unwords(ws)| - 1])
    decreases |ws|
  {
    if |ws| > 1 {
      assert Words(ws[1..]) by {
        forall i | 0 <= i < |ws[1..]|
          ensures ws[1..][i] != [] && NoSpace(ws[1..][i])
        {
          assert ws[1..][i] == ws[i + 1];
        }
      }
      UnwordsLast(ws[1..]);
      assert Unwords(ws) == ws[0] + " " + Unwords(ws[1..]);
    }
  }

  // ---------------------------------------------------------------------------
  // Weights: str.isdigit and int on ASCII digits
  // ---------------------------------------------------------------------------

  predicate IsDigits(s: string)
  {
    |s| >= 1 && forall k | 0 <= k < |s| :: '0' <= s[k] <= '9'
  }

  /** int(s) for a string of decimal digits (leading zeros allowed). */
  function DigitsValue(s: string): nat
    requires IsDigits(s)
    decreases |s|
  {
    var last := (s[|s| - 1] as int - '0' as int) as nat;
    if |s| == 1 then last else DigitsValue(s[..|s| - 1]) * 10 + last
  }

  /** The decimal form of n, as str(n) writes it. */
  function Decimal(n: nat): (r: string)
    ensures IsDigits(r)
  {
    var digit := ['0' + (n % 10) as char];
    if n < 10 then digit else Decimal(n / 10) + digit
  }

  /** Reading back a written weight gives the weight. */
  lemma {:induction false} DecimalRoundTrip(n: nat)
    ensures DigitsValue(Decimal(n)) == n
  {
    var r := Decimal(n);
    if n >= 10 {
      DecimalRoundTrip(n / 10);
      assert r[..|r| - 1] == Decimal(n / 10);
    }
  }

  // ---------------------------------------------------------------------------
  // Lines and the whole file
  // ---------------------------------------------------------------------------

  datatype LineKind = Blank | Comment | EdgeLine(u: Node, v: Node, w: nat) | Malformed

  /** What one line of the file is read as. */
  function Classify(line: string): (k: LineKind)
    ensures k.EdgeLine? ==> k.u != [] && k.u[0] == 'N' && k.v != [] && k.v[0] == 'N'
  {
    var t := Strip(line);
    if t == [] then Blank
    else if t[0] == '#' then Comment
    else
      var parts := Split(t);
      if |parts| >= 2 && parts[0][0] == 'N' && parts[1][0] == 'N' then
        EdgeLine(parts[0], parts[1], if |parts| > 2 && IsDigits(parts[2]) then DigitsValue(parts[2]) else 1)
      else Malformed
  }

  /** A line of words whose first two start with 'N' is read as the edge between them. */
  lemma {:induction false} ClassifyEdgeWords(ws: seq<string>)
    requires Words(ws) && |ws| >= 2 && ws[0][0] == 'N' && ws[1][0] == 'N'
    ensures Classify(Unwords(ws))
      == EdgeLine(ws[0], ws[1], if |ws| > 2 && IsDigits(ws[2]) then DigitsValue(ws[2]) else 1)
  {
    StripUnwords(ws);
    SplitUnwords(ws);
    UnwordsLength(ws);
    assert Unwords(ws)[0] == ws[0][0];
  }

  /** A line written as `u v w` is read as the edge (u, v) of weight w. */
  lemma {:induction false} ClassifyWeighted(u: Node, v: Node, w: nat)
    requires u != [] && NoSpace(u) && u[0] == 'N'
    requires v != [] && NoSpace(v) && v[0] == 'N'
    ensures Classify(u + " " + v + " " + Decimal(w)) == EdgeLine(u, v, w)
  {
    var ws := [u, v, Decimal(w)];
    assert Words(ws);
    assert Unwords(ws) == u + " " + v + " " + Decimal(w) by {
      assert Unwords(ws[1..]) == v + " " + Decimal(w) by {
        assert ws[1..][1..] == [Decimal(w)];
      }
    }
    ClassifyEdgeWords(ws);
    DecimalRoundTrip(w);
  }

  /** A line written as `u v` is read as the edge (u, v) of the default weight 1. */
  lemma {:induction false} ClassifyUnweighted(u: Node, v: Node)
    requires u != [] && NoSpace(u) && u[0] == 'N'
    requires v != [] && NoSpace(v) && v[0] == 'N'
    ensures Classify(u + " " + v) == EdgeLine(u, v, 1)
  {
    var ws := [u, v];
    assert Words(ws);
    assert Unwords(ws) == u + " " + v by {
      assert ws[1..] == [v];
    }
    ClassifyEdgeWords(ws);
  }

  /**
   * A line of words that is not a comment is skipped as malformed when it has fewer
   * than two words or one of its first two words does not start with 'N'.
   */
  lemma {:induction false} ClassifyMalformed(ws: seq<string>)
    requires Words(ws) && ws != [] && ws[0][0] != '#'
    requires |ws| < 2 || ws[0][0] != 'N' || ws[1][0] != 'N'
    ensures Classify(Unwords(ws)) == Malformed
  {
    StripUnwords(ws);
    SplitUnwords(ws);
    UnwordsLength(ws);
    assert Unwords(ws)[0] == ws[0][0];
  }

  /**
   * How any line is read, in terms of its words alone: no words is a blank line,
   * a first word starting with '#' a comment, two first words starting with 'N'
   * an edge weighted by an all-digit third word or by 1, and anything else is
   * skipped. Whitespace before, between and after the words does not matter.
   */
  lemma {:induction false} ClassifySpec(line: string)
    ensures var ws := Split(line);
      Classify(line) ==
        if ws == [] then Blank
        else if ws[0][0] == '#' then Comment
        else if |ws| >= 2 && ws[0][0] == 'N' && ws[1][0] == 'N' then
          EdgeLine(ws[0], ws[1], if |ws| > 2 && IsDigits(ws[2]) then DigitsValue(ws[2]) else 1)
        else Malformed
  {
    var t := Strip(line);
    SplitStrip(line);
    if t != [] {
      assert t[0] == TrimLeft(line)[0];
      assert Split(t) == [Word(t)] + Split(t[|Word(t)|..]);
      assert Word(t)[0] == t[0];
    }
  }

  /** How each line of the file is read. */
  function Kinds(lines: seq<string>): (ks: seq<LineKind>)
    ensures |ks| == |lines| && forall i | 0 <= i < |lines| :: ks[i] == Classify(lines[i])
  {
    seq(|lines|, i requires 0 <= i < |lines| => Classify(lines[i]))
  }

  /** The graph built from the read lines, one add_edge per edge line in file order. */
  function Build(ks: seq<LineKind>): Graph
    decreases |ks|
  {
    if ks == [] then Graph([], [])
    else
      var g := Build(ks[..|ks| - 1]);
      match ks[|ks| - 1]
      case EdgeLine(u, v, w) => AddEdge(g, u, v, w)
      case _ => g
  }

  lemma {:induction false} BuildStep(ks: seq<LineKind>, i: nat)
    requires i < |ks|
    ensures Build(ks[..i + 1]) ==
      if ks[i].EdgeLine? then AddEdge(Build(ks[..i]), ks[i].u, ks[i].v, ks[i].w) else Build(ks[..i])
  {
    assert ks[..i + 1][..i] == ks[..i];
  }

  function ParseLines(lines: seq<string>): Graph
  {
    Build(Kinds(lines))
  }

  /** parse_netlist_to_graph over the lines of the file. */
  method ParseNetlist(lines: seq<string>) returns (g: Graph)
    ensures g == ParseLines(lines)
  {
    g := Graph([], []);
    ghost var ks := Kinds(lines);
    for i := 0 to |lines|
      invariant g == Build(ks[..i])
    {
      BuildStep(ks, i);
      var kind := Classify(lines[i]);
      if kind.EdgeLine? {
        g := AddEdge(g, kind.u, kind.v, kind.w);
      }
    }
    assert ks[..|lines|] == ks;
  }

  /** Read line i is an edge line naming `x` as an endpoint. */
  predicate Names(ks: seq<LineKind>, i: int, x: Node)
    requires 0 <= i < |ks|
  {
    ks[i].EdgeLine? && (ks[i].u == x || ks[i].v == x)
  }

  /** Read line i is an edge line between `x` and `y`, in either order. */
  predicate Connects(ks: seq<LineKind>, i: int, x: Node, y: Node)
    requires 0 <= i < |ks|
  {
    ks[i].EdgeLine? && Joins(Edge(ks[i].u, ks[i].v, ks[i].w), x, y)
  }

  /** The weight given by the last edge line between `x` and `y`, or 0 when there is none. */
  function LastWeight(ks: seq<LineKind>, x: Node, y: Node): nat
    decreases |ks|
  {
    if ks == [] then 0
    else
      var k := ks[|ks| - 1];
      if k.EdgeLine? && Joins(Edge(k.u, k.v, k.w), x, y) then k.w
      else LastWeight(ks[..|ks| - 1], x, y)
  }

  /** The built graph is simple: distinct nodes, endpoints among them, one edge per pair. */
  lemma {:induction false} BuildWellFormed(ks: seq<LineKind>)
    ensures WellFormed(Build(ks))
    decreases |ks|
  {
    if ks != [] {
      var front := ks[..|ks| - 1];
      BuildWellFormed(front);
      var k := ks[|ks| - 1];
      if k.EdgeLine? {
        AddEdgeSpec(Build(front), k.u, k.v, k.w);
      }
    }
  }

  /** A read line names `x` in `ks` exactly when it does in the front or is the last line naming it. */
  lemma {:induction false} NamesSplit(ks: seq<LineKind>, front: seq<LineKind>, x: Node)
    requires ks != [] && front == ks[..|ks| - 1]
    ensures (exists i | 0 <= i < |ks| :: Names(ks, i, x)) <==>
      (exists i | 0 <= i < |front| :: Names(front, i, x)) || Names(ks, |ks| - 1, x)
  {
    if exists i | 0 <= i < |ks| :: Names(ks, i, x) {
      var i :| 0 <= i < |ks| && Names(ks, i, x);
      if i < |front| {
        assert front[i] == ks[i];
        assert Names(front, i, x);
      }
    }
    if exists i | 0 <= i < |front| :: Names(front, i, x) {
      var i :| 0 <= i < |front| && Names(front, i, x);
      assert front[i] == ks[i];
      assert Names(ks, i, x);
    }
  }

  /** The nodes of the built graph are exactly the endpoints named by edge lines. */
  lemma {:induction false} BuildNodes(ks: seq<LineKind>, x: Node)
    ensures x in Build(ks).nodes <==> exists i | 0 <= i < |ks| :: Names(ks, i, x)
    decreases |ks|
  {
    if ks != [] {
      var front := ks[..|ks| - 1];
      BuildNodes(front, x);
      NamesSplit(ks, front, x);
    }
  }

  /**
   * The weight between two nodes is the one the last edge line naming the pair
   * gives (a repeated pair overwrites the earlier weight), 0 when no line names it.
   */
  lemma {:induction false} BuildWeight(ks: seq<LineKind>, x: Node, y: Node)
    ensures Weight(Build(ks), x, y) == LastWeight(ks, x, y)
    decreases |ks|
  {
    if ks != [] {
      var front := ks[..|ks| - 1];
      BuildWeight(front, x, y);
      BuildWellFormed(front);
      var k := ks[|ks| - 1];
      if k.EdgeLine? {
        AddEdgeSpec(Build(front), k.u, k.v, k.w);
        if Joins(Edge(k.u, k.v, k.w), x, y) {
          WeightSpec(Build(ks), k.u, k.v);
        }
      }
    }
  }

  lemma {:induction false} ConnectsSplit(ks: seq<LineKind>, front: seq<LineKind>, x: Node, y: Node)
    requires ks != [] && front == ks[..|ks| - 1]
    ensures (exists i | 0 <= i < |ks| :: Connects(ks, i, x, y)) <==>
      (exists i | 0 <= i < |front| :: Connects(front, i, x, y)) || Connects(ks, |ks| - 1, x, y)
  {
    if exists i | 0 <= i < |ks| :: Connects(ks, i, x, y) {
      var i :| 0 <= i < |ks| && Connects(ks, i, x, y);
      if i < |front| {
        assert front[i] == ks[i];
        assert Connects(front, i, x, y);
      }
    }
    if exists i | 0 <= i < |front| :: Connects(front, i, x, y) {
      var i :| 0 <= i < |front| && Connects(front, i, x, y);
      assert front[i] == ks[i];
      assert Connects(ks, i, x, y);
    }
  }

  /** Two nodes are joined by an edge exactly when some edge line names the pair. */
  lemma {:induction false} BuildEdges(ks: seq<LineKind>, x: Node, y: Node)
    ensures HasEdgeIn(Build(ks).edges, x, y) <==> exists i | 0 <= i < |ks| :: Connects(ks, i, x, y)
    decreases |ks|
  {
    if ks != [] {
      var front := ks[..|ks| - 1];
      BuildEdges(front, x, y);
      ConnectsSplit(ks, front, x, y);
      var k := ks[|ks| - 1];
      if k.EdgeLine? {
        HasEdgeAfterAdd(Build(front), k.u, k.v, k.w, x, y);
      }
    }
  }

  /**
   * The parsed graph is simple; its nodes are exactly the endpoints named by edge
   * lines; two nodes are joined exactly when an edge line names the pair, and the
   * weight is the one the last such line gives.
   */
  lemma {:induction false} ParseLinesSpec(lines: seq<string>)
    ensures var g, ks := ParseLines(lines), Kinds(lines);
      && WellFormed(g)
      && (forall x :: x in g.nodes <==> exists i | 0 <= i < |ks| :: Names(ks, i, x))
      && (forall x, y :: HasEdgeIn(g.edges, x, y) <==> exists i | 0 <= i < |ks| :: Connects(ks, i, x, y))
      && (forall x, y :: Weight(g, x, y) == LastWeight(ks, x, y))
  {
    var ks := Kinds(lines);
    BuildWellFormed(ks);
    forall x
      ensures x in Build(ks).nodes <==> exists i | 0 <= i < |ks| :: Names(ks, i, x)
    {
      BuildNodes(ks, x);
    }
    forall x, y
      ensures HasEdgeIn(Build(ks).edges, x, y) <==> exists i | 0 <= i < |ks| :: Connects(ks, i, x, y)
      ensures Weight(Build(ks), x, y) == LastWeight(ks, x, y)
    {
      BuildEdges(ks, x, y);
      BuildWeight(ks, x, y);
    }
  }

  /** After add_edge a pair is joined exactly when it was before or it is the added pair. */
  lemma {:induction false} HasEdgeAfterAdd(g: Graph, u: Node, v: Node, w: nat, x: Node, y: Node)
    ensures HasEdgeIn(AddEdge(g, u, v, w).edges, x, y) <==> HasEdgeIn(g.edges, x, y) || Joins(Edge(u, v, w), x, y)
  {
    var es := AddEdge(g, u, v, w).edges;
    if HasEdgeIn(g.edges, x, y) && !Joins(Edge(u, v, w), x, y) {
      var e :| e in g.edges && Joins(e, x, y);
      assert !Joins(e, u, v);
      assert e in es;
    }
    if Joins(Edge(u, v, w), x, y) {
      SetWeightHas(g.edges, u, v, w);
    }
    if HasEdgeIn(es, x, y) {
      var e :| e in es && Joins(e, x, y);
    }
  }

  lemma {:induction false} SetWeightHas(es: seq<Edge>, u: Node, v: Node, w: nat)
    ensures HasEdgeIn(SetWeight(es, u, v, w), u, v)
    decreases |es|
  {
    if es == [] {
      assert Edge(u, v, w) in SetWeight(es, u, v, w);
    } else if Joins(es[0], u, v) {
      var r := SetWeight(es, u, v, w);
      assert r[0] == es[0].(w := w);
      assert r[0] in r && Joins(r[0], u, v);
    } else {
      SetWeightHas(es[1..], u, v, w);
      var e :| e in SetWeight(es[1..], u, v, w) && Joins(e, u, v);
      assert e in SetWeight(es, u, v, w);
    }
  }

  /** A file with no edge line gives the empty graph: no nodes and no edges. */
  lemma {:induction false} BuildNoEdges(ks: seq<LineKind>)
    requires forall i | 0 <= i < |ks| :: !ks[i].EdgeLine?
    ensures Build(ks) == Graph([], [])
    decreases |ks|
  {
    if ks != [] {
      BuildNoEdges(ks[..|ks| - 1]);
    }
  }

  /** Blank and comment lines add nothing: a file made only of them parses to the empty graph. */
  lemma {:induction false} ParseSkipsAll(lines: seq<string>)
    requires forall i | 0 <= i < |lines| :: Strip(lines[i]) == [] || Strip(lines[i])[0] == '#'
    ensures ParseLines(lines) == Graph([], [])
  {
    BuildNoEdges(Kinds(lines));
  }

  /** A line whose first character is '#' is a comment, whatever follows. */
  lemma {:induction false} ClassifyComment(rest: string)
    ensures Classify("#" + rest) == Comment
  {
    var line := "#" + rest;
    assert line[0] == '#';
    assert TrimLeft(line) == line;
    var t := Strip(line);
    assert t == line[..|t|];
  }
}

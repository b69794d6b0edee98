/** The blocks that evaluation/scripts/theory_splitter.py makes are not cut again: each, split alone, is one block. */
module BlockStability {
  import opened Text
  import opened TheoryLexer
  import opened CommandSplitter

  // ----- blanks at the ends of a joined text ---------------------------------------------------

  lemma {:induction false} LeadingSpaceOfFront(x: string, rest: string)
    requires !AllSpace(x)
    ensures LeadingSpace(x + rest) == LeadingSpace(x) < |x|
  {
    assert (x + rest)[0] == x[0];
    if IsSpace(x[0]) {
      assert (x + rest)[1..] == x[1..] + rest;
      var k :| 0 <= k < |x| && !IsSpace(x[k]);
      assert x[1..][k - 1] == x[k];
      LeadingSpaceOfFront(x[1..], rest);
    }
  }

  lemma LStripFront(x: string, rest: string)
    requires !AllSpace(x)
    ensures LStrip(x + rest) == LStrip(x) + rest && LStrip(x) != "" && !IsSpace(LStrip(x)[0])
  {
    LeadingSpaceOfFront(x, rest);
    var k := LeadingSpace(x);
    assert (x + rest)[k..] == x[k..] + rest;
  }

  lemma RStripKeeps(s: string)
    requires s == "" || !IsSpace(s[|s| - 1])
    ensures RStrip(s) == s
  {
  }

  lemma RStripTwice(s: string)
    ensures RStrip(RStrip(s)) == RStrip(s)
    ensures RStrip(s) != "" ==> !IsSpace(RStrip(s)[|RStrip(s)| - 1])
  {
    RStripKeeps(RStrip(s));
  }

  lemma BlankIsStripped(line: string)
    ensures AllSpace(line) <==> RStrip(line) == ""
    ensures AllSpace(RStrip(line)) ==> AllSpace(line)
  {
    var k := RStripLen(line);
    if k > 0 {
      assert RStrip(line)[k - 1] == line[k - 1];
    }
    assert line == line[..k] + line[k..];
  }

  // ----- the lines of a block ------------------------------------------------------------------

  ghost predicate IsGroup(group: seq<string>) {
    && group != [] && !AllSpace(group[0])
    && forall l | l in group :: '\n' !in l && '\r' !in l
  }

  /** The lines of the block that is made from a group: the first loses its indentation, all lose the blanks at their
      end, and blank lines at the end are gone. */
  ghost function BlockLines(group: seq<string>): (r: seq<string>)
    requires IsGroup(group)
    ensures r != [] && |r| <= |group| && r[0] == LStrip(RStrip(group[0]))
    ensures forall k | 0 < k < |r| :: r[k] == RStrip(group[k])
    decreases |group|
  {
    if |group| > 1 && AllSpace(group[|group| - 1]) then BlockLines(group[..|group| - 1])
    else [LStrip(RStrip(group[0]))] + RStripAll(group)[1..]
  }

  lemma JoinFirst(x: string, rest: seq<string>)
    ensures Join([x] + rest, "\n") == x + (if rest == [] then "" else "\n" + Join(rest, "\n"))
  {
    assert ([x] + rest)[1..] == rest;
  }

  lemma {:induction false} JoinLast(parts: seq<string>, x: string)
    requires parts != []
    ensures Join(parts + [x], "\n") == Join(parts, "\n") + "\n" + x
  {
    JoinAppend(parts, [x], "\n");
  }

  /** The last line of a text that is joined from lines is its end. */
  lemma JoinEnd(parts: seq<string>)
    requires parts != [] && parts[|parts| - 1] != ""
    ensures var (x, y) := (Join(parts, "\n"), parts[|parts| - 1]); x != "" && x[|x| - 1] == y[|y| - 1]
  {
    var n := |parts| - 1;
    if n > 0 {
      assert parts == parts[..n] + [parts[n]];
      JoinLast(parts[..n], parts[n]);
    }
  }

  lemma {:induction false} RStripBlankEnd(x: string, w: string)
    requires AllSpace(w)
    ensures RStrip(x + w) == RStrip(x)
  {
    if w != "" {
      var n := |w| - 1;
      assert (x + w)[..|x| + n] == x + w[..n] && (x + w)[|x| + n] == w[n];
      RStripBlankEnd(x, w[..n]);
    } else {
      assert x + w == x;
    }
  }

  lemma StripBlankEnd(x: string, w: string)
    requires AllSpace(w) && !AllSpace(x)
    ensures Strip(x + w) == Strip(x)
  {
    LStripFront(x, w);
    RStripBlankEnd(LStrip(x), w);
  }

  lemma {:induction false} JoinNotBlank(parts: seq<string>)
    requires parts != [] && !AllSpace(parts[0])
    ensures !AllSpace(Join(parts, "\n"))
  {
    var k :| 0 <= k < |parts[0]| && !IsSpace(parts[0][k]);
    assert Join(parts, "\n")[k] == parts[0][k];
  }

  /** A blank line at the end of a group leaves no trace. */
  lemma BlankLineIsDropped(group: seq<string>)
    requires IsGroup(group) && |group| > 1 && AllSpace(group[|group| - 1])
    ensures Block(group) == Block(group[..|group| - 1])
  {
    var n := |group| - 1;
    var r := RStripAll(group[..n]);
    BlankIsStripped(group[n]);
    BlankIsStripped(group[0]);
    assert RStripAll(group) == r + [""];
    JoinLast(r, "");
    JoinNotBlank(r);
    StripBlankEnd(Join(r, "\n"), "\n");
    assert Join(r, "\n") + "\n" + "" == Join(r, "\n") + "\n";
  }

  lemma LStripEnd(s: string)
    requires LStrip(s) != ""
    ensures s != "" && LStrip(s)[|LStrip(s)| - 1] == s[|s| - 1]
  {
  }

  lemma FullGroupIsJoined(group: seq<string>)
    requires group != [] && !AllSpace(group[0]) && !AllSpace(group[|group| - 1])
    ensures Block(group) == Join([LStrip(RStrip(group[0]))] + RStripAll(group)[1..], "\n")
  {
    hide LStrip, RStrip, IsSpace;
    var n := |group| - 1;
    var r := RStripAll(group);
    var tail := if n == 0 then "" else "\n" + Join(r[1..], "\n");
    BlankIsStripped(group[0]);
    BlankIsStripped(group[n]);
    RStripTwice(group[n]);
    assert r == [r[0]] + r[1..];
    JoinFirst(r[0], r[1..]);
    JoinFirst(LStrip(r[0]), r[1..]);
    LStripFront(r[0], tail);
    JoinEnd(r);
    var x := LStrip(r[0]) + tail;
    assert LStrip(Join(r, "\n")) == x;
    LStripEnd(Join(r, "\n"));
    RStripKeeps(x);
  }

  lemma {:induction false} BlockIsJoined(group: seq<string>)
    requires IsGroup(group)
    ensures Block(group) == Join(BlockLines(group), "\n")
    decreases |group|
  {
    hide Block, RStripAll, LStrip, RStrip;
    var n := |group| - 1;
    if n > 0 && AllSpace(group[n]) {
      BlankLineIsDropped(group);
      BlockIsJoined(group[..n]);
    } else {
      FullGroupIsJoined(group);
    }
  }

  lemma NotInFront(s: string, c: char, k: nat)
    requires k <= |s| && c !in s[..k]
    ensures forall i | 0 <= i < k :: s[i] != c
  {
    forall i | 0 <= i < k
      ensures s[i] != c
    {
      assert s[..k][i] == s[i];
    }
  }

  lemma IndexIs(s: string, c: char, k: nat)
    requires k <= |s| && c !in s[..k] && (k < |s| ==> s[k] == c)
    ensures IndexOf(s, c) == k
  {
    var j := IndexOf(s, c);
    NotInFront(s, c, k);
    NotInFront(s, c, j);
  }

  lemma FirstLineSplit(line: string, rest: string)
    requires '\n' !in line
    ensures SplitLines(line) == [line]
    ensures SplitLines(line + "\n" + rest) == [line] + SplitLines(rest)
  {
    var x := line + "\n" + rest;
    assert line[..|line|] == line && x[..|line|] == line && x[|line|] == '\n' && x[|line| + 1..] == rest;
    IndexIs(line, '\n', |line|);
    IndexIs(x, '\n', |line|);
  }

  lemma {:induction false} SplitJoined(lines: seq<string>)
    requires lines != [] && forall l | l in lines :: '\n' !in l
    ensures SplitLines(Join(lines, "\n")) == lines
  {
    hide SplitLines;
    assert lines == [lines[0]] + lines[1..];
    if |lines| == 1 {
      FirstLineSplit(lines[0], "");
    } else {
      FirstLineSplit(lines[0], Join(lines[1..], "\n"));
      SplitJoined(lines[1..]);
    }
  }

  lemma StripIsPart(s: string, c: char)
    requires c !in s
    ensures c !in LStrip(s) && c !in RStrip(s) && c !in Strip(s)
  {
  }

  lemma LStripKeepsEnd(s: string)
    requires RStrip(s) == s
    ensures RStrip(LStrip(s)) == LStrip(s)
  {
    var t := LStrip(s);
    if t != "" {
      assert t[|t| - 1] == s[|s| - 1] && RStrip(s)[|s| - 1] == s[|s| - 1];
      RStripTwice(s);
    }
    RStripKeeps(t);
  }

  lemma BlockLineHasNoEnds(group: seq<string>, k: nat)
    requires IsGroup(group) && k < |BlockLines(group)|
    ensures var l := BlockLines(group)[k]; '\n' !in l && '\r' !in l && RStrip(l) == l
  {
    hide LStrip, RStrip;
    var l := group[k];
    assert l in group;
    RStripTwice(l);
    LStripKeepsEnd(RStrip(l));
    StripIsPart(l, '\n');
    StripIsPart(l, '\r');
    StripIsPart(RStrip(l), '\n');
    StripIsPart(RStrip(l), '\r');
  }

  lemma BlockLinesHaveNoEnds(group: seq<string>)
    requires IsGroup(group)
    ensures forall l | l in BlockLines(group) :: '\n' !in l && '\r' !in l && RStrip(l) == l
  {
    hide IsGroup, RStrip;
    var r := BlockLines(group);
    forall k | 0 <= k < |r|
      ensures '\n' !in r[k] && '\r' !in r[k] && RStrip(r[k]) == r[k]
    {
      BlockLineHasNoEnds(group, k);
    }
  }

  // ----- the lexer on the lines of a block -----------------------------------------------------

  lemma RunLStripped(s: Lex, text: string)
    ensures Run(s, LStrip(text), 0) == Run(s, text, 0)
  {
    var k := LeadingSpace(text);
    RunLStrip(s, text[..k], text[k..]);
    assert text[..k] + text[k..] == text;
  }

  lemma {:induction false} FeedSame(s: Lex, a: seq<string>, b: seq<string>)
    requires |a| == |b| && forall k, q: Lex | 0 <= k < |a| :: Run(q, a[k], 0) == Run(q, b[k], 0)
    ensures Feed(s, a) == Feed(s, b)
    decreases |a|
  {
    if a != [] {
      var q := Run(Run(s, a[0], 0), "\n", 0);
      assert Run(s, a[0], 0) == Run(s, b[0], 0);
      FeedSame(q, a[1..], b[1..]);
    }
  }

  lemma FeedBlockLines(group: seq<string>, k: nat)
    requires IsGroup(group) && k <= |BlockLines(group)|
    ensures Feed(CLEAR, BlockLines(group)[..k]) == Feed(CLEAR, group[..k])
  {
    var (a, b) := (BlockLines(group)[..k], group[..k]);
    forall j, q: Lex | 0 <= j < k
      ensures Run(q, a[j], 0) == Run(q, b[j], 0)
    {
      RunRStrip(q, group[j]);
      RunLStripped(q, RStrip(group[j]));
    }
    FeedSame(CLEAR, a, b);
  }

  /** The state before line `k` of a block, and whether a command starts there, are those in the whole text. */
  lemma BlockLineIsNoCut(lines: seq<string>, lo: nat, k: nat, group: seq<string>, syn: Syntax)
    requires lo < lo + k < lo + |group| <= |lines| && group == lines[lo..lo + |group|]
    requires IsGroup(group) && k < |BlockLines(group)| && Feed(CLEAR, lines[..lo]) == CLEAR
    requires lo + k !in Cuts(lines, syn)
    ensures k !in Cuts(BlockLines(group), syn)
  {
    hide Feed, IsGroup, RStrip, Cuts;
    CutTest(BlockLines(group), syn);
    CutTest(lines, syn);
    FeedBlockLines(group, k);
    assert lines[..lo + k] == lines[..lo] + group[..k];
    FeedAppend(CLEAR, lines[..lo], group[..k]);
    RStripTwice(group[k]);
    assert BlockLines(group)[k] == RStrip(lines[lo + k]);
  }

  lemma BlockHasNoCuts(lines: seq<string>, lo: nat, hi: nat, syn: Syntax)
    requires lo < hi <= |lines| && IsGroup(lines[lo..hi]) && Feed(CLEAR, lines[..lo]) == CLEAR
    requires forall k | lo < k < hi :: k !in Cuts(lines, syn)
    ensures Cuts(BlockLines(lines[lo..hi]), syn) == {}
  {
    hide IsGroup, Feed, IsCut;
    var bl := BlockLines(lines[lo..hi]);
    CutTest(bl, syn);
    forall k: nat | k < |bl|
      ensures k !in Cuts(bl, syn)
    {
      if k > 0 {
        BlockLineIsNoCut(lines, lo, k, lines[lo..hi], syn);
      }
    }
  }

  // ----- a block is one block ------------------------------------------------------------------

  lemma {:induction false} NoCutsOneBlock(lines: seq<string>, k: nat)
    requires 0 < k <= |lines|
    ensures BlocksFrom(lines, {}, 0, k) == [Block(lines)]
    decreases |lines| - k
  {
    if k == |lines| {
      assert lines[0..] == lines;
    } else {
      NoCutsOneBlock(lines, k + 1);
    }
  }

  lemma {:induction false} JoinHasNo(lines: seq<string>, c: char)
    requires c != '\n' && forall l | l in lines :: c !in l
    ensures c !in Join(lines, "\n")
  {
    if |lines| > 1 {
      JoinHasNo(lines[1..], c);
    }
  }

  lemma NormalizedBlock(group: seq<string>)
    requires IsGroup(group)
    ensures Normalized(Block(group)) == Block(group) && Block(group) != ""
  {
    var b := Block(group);
    BlockIsJoined(group);
    BlockLinesHaveNoEnds(group);
    JoinHasNo(BlockLines(group), '\r');
    ReplaceNothing(b, "\r\n", "\n");
    ReplaceNothing(b, "\r", "\n");
    StripIsTrimmed(Join(RStripAll(group), "\n"));
    BlockNotEmpty(group);
  }

  lemma BlockOfBlockLines(group: seq<string>)
    requires IsGroup(group)
    ensures Block(BlockLines(group)) == Block(group)
  {
    var bl := BlockLines(group);
    BlockLinesHaveNoEnds(group);
    assert forall k | 0 <= k < |bl| :: bl[k] in bl;
    assert RStripAll(bl) == bl;
    BlockIsJoined(group);
    StripIsTrimmed(Join(RStripAll(group), "\n"));
  }

  lemma GroupIsOneBlock(lines: seq<string>, lo: nat, hi: nat, syn: Syntax)
    requires lo < hi <= |lines| && IsGroup(lines[lo..hi]) && Feed(CLEAR, lines[..lo]) == CLEAR
    requires forall k | lo < k < hi :: k !in Cuts(lines, syn)
    ensures Blocks(Block(lines[lo..hi]), syn) == [Block(lines[lo..hi])]
  {
    hide IsGroup, Block, Normalized, Cuts;
    var group := lines[lo..hi];
    var bl := BlockLines(group);
    NormalizedBlock(group);
    BlockIsJoined(group);
    BlockLinesHaveNoEnds(group);
    SplitJoined(bl);
    BlockHasNoCuts(lines, lo, hi, syn);
    NoCutsOneBlock(bl, 1);
    BlockOfBlockLines(group);
  }

  /** The lines of a normalised body. */
  ghost predicate IsBody(lines: seq<string>) {
    && lines != [] && !AllSpace(lines[0])
    && forall l | l in lines :: '\n' !in l && '\r' !in l
  }

  lemma CutLineNotBlank(lines: seq<string>, k: nat, syn: Syntax)
    requires k in Cuts(lines, syn)
    ensures k < |lines| && !AllSpace(lines[k])
  {
    CutTest(lines, syn);
    BlankLineStripsToNothing(lines[k]);
  }

  lemma NothingFed()
    ensures Feed(CLEAR, []) == CLEAR
  {
  }

  lemma {:induction false} BlocksFromAreStable(lines: seq<string>, syn: Syntax, lo: nat, k: nat)
    requires IsBody(lines) && lo < k <= |lines| && (lo == 0 || lo in Cuts(lines, syn))
    requires forall j | lo < j < k :: j !in Cuts(lines, syn)
    ensures forall b | b in BlocksFrom(lines, Cuts(lines, syn), lo, k) :: Blocks(b, syn) == [b]
    decreases |lines| - k
  {
    hide Cuts, Blocks, Block, Feed;
    CutsAreClear(lines, syn);
    if lo > 0 {
      CutLineNotBlank(lines, lo, syn);
    }
    assert lines[..0] == [];
    NothingFed();
    var cuts := Cuts(lines, syn);
    if k == |lines| {
      assert lines[lo..k] == lines[lo..] && lines[lo..][0] == lines[lo];
      GroupIsOneBlock(lines, lo, k, syn);
    } else if k in cuts {
      assert lines[lo..k][0] == lines[lo];
      GroupIsOneBlock(lines, lo, k, syn);
      BlocksFromAreStable(lines, syn, k, k + 1);
    } else {
      BlocksFromAreStable(lines, syn, lo, k + 1);
    }
  }

  lemma {:induction false} ReplaceRemoves(s: string, c: char, replacement: string)
    requires c !in replacement
    ensures c !in Replace(s, [c], replacement)
  {
    if s != "" {
      assert StartsWith(s, 0, [c]) <==> s[0] == c by {
        assert s[0..1] == [s[0]];
      }
      ReplaceRemoves(s[1..], c, replacement);
    }
  }

  lemma {:induction false} LinesArePart(s: string, c: char)
    requires c !in s
    ensures forall l | l in SplitLines(s) :: c !in l
    decreases |s|
  {
    var k := IndexOf(s, '\n');
    if k < |s| {
      LinesArePart(s[k + 1..], c);
    }
  }

  lemma LinesOfBody(body: string)
    requires Normalized(body) != ""
    ensures IsBody(SplitLines(Normalized(body)))
  {
    var raw := Replace(Replace(body, "\r\n", "\n"), "\r", "\n");
    var text := Normalized(body);
    ReplaceRemoves(Replace(body, "\r\n", "\n"), '\r', "\n");
    StripIsPart(raw, '\r');
    NormalizedStart(body);
    FirstLineNotBlank(text);
    LinesArePart(text, '\r');
  }

  /** Each block of a body, split alone, is one block again: itself. */
  lemma BlocksAreStable(body: string, syn: Syntax)
    ensures forall b | b in Blocks(body, syn) :: Blocks(b, syn) == [b]
  {
    var text := Normalized(body);
    if text != "" {
      LinesOfBody(body);
      BlocksFromAreStable(SplitLines(text), syn, 0, 1);
    }
  }
}

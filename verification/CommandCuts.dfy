/** Where evaluation/scripts/theory_splitter.py cuts a theory body into commands: exactly at the lines outside of all
    comments, strings and cartouches that begin with a command word. */
module CommandCuts {
  import opened Text
  import opened TheoryLexer
  import opened CommandSplitter
  import opened BlockStability

  // ----- command words -------------------------------------------------------------------------

  /** The text begins with the whole word `kw`. */
  predicate BeginsWith(text: string, kw: string, wordTable: char -> bool) {
    kw <= text && (|text| == |kw| || IsBoundary(text[|kw|], wordTable))
  }

  predicate IsDots(line: string) {
    line == "." || line == ".." || line == "..."
  }

  lemma {:induction false} FirstStarterExactly(s: string, kws: seq<string>, wordTable: char -> bool)
    ensures FirstStarter(s, kws, wordTable).Some? <==> exists kw :: kw in kws && BeginsWith(s, kw, wordTable)
  {
    if kws != [] {
      FirstStarterExactly(s, kws[1..], wordTable);
      assert forall kw :: kw in kws <==> kw == kws[0] || kw in kws[1..];
      assert StartsWithKeyword(s, kws[0], wordTable) <==> BeginsWith(s, kws[0], wordTable);
    }
  }

  /** A line begins a command exactly if, without its indentation, it is a run of dots or begins with a whole word of
      the list. */
  lemma LineStarterExactly(stripped: string, syn: Syntax)
    ensures LineStarter(stripped, syn).Some? <==>
              IsDots(stripped) || exists kw :: kw in syn.starters && BeginsWith(stripped, kw, syn.wordTable)
  {
    FirstStarterExactly(stripped, syn.starters, syn.wordTable);
  }

  predicate IsCommandWord(kw: string) {
    kw != "" && IsLetter(kw[0]) && forall k | 0 <= k < |kw| :: IsLetter(kw[k]) || kw[k] == '_'
  }

  /** Some words of the list. */
  lemma CommonStarters()
    ensures "lemma" in COMMAND_STARTERS && "theorem" in COMMAND_STARTERS && "definition" in COMMAND_STARTERS
    ensures "fun" in COMMAND_STARTERS && "proof" in COMMAND_STARTERS && "by" in COMMAND_STARTERS
    ensures "qed" in COMMAND_STARTERS && "end" in COMMAND_STARTERS
  {
  }

  lemma CommonStartersAreWords()
    ensures forall kw | kw in ["lemma", "theorem", "definition", "fun", "proof", "by", "qed", "end"] ::
              IsCommandWord(kw)
  {
  }

  // ----- line ends -----------------------------------------------------------------------------

  lemma {:induction false} ReplaceBehind(p: string, t: string, target: string, replacement: string)
    requires target != "" && target[0] !in p
    ensures Replace(p + t, target, replacement) == p + Replace(t, target, replacement)
  {
    if p == "" {
      assert p + t == t;
    } else {
      assert (p + t)[1..] == p[1..] + t;
      StartsFirst(p + t, 0, target);
      ReplaceBehind(p[1..], t, target, replacement);
    }
  }

  lemma LineFeedsBehind(p: string, t: string)
    requires '\r' !in p
    ensures LineFeeds(p + t) == p + LineFeeds(t)
  {
    ReplaceBehind(p, t, "\r\n", "\n");
    ReplaceBehind(p, Replace(t, "\r\n", "\n"), "\r", "\n");
  }

  lemma LineFeedsOfOneEnd(t: string)
    ensures LineFeeds("\n" + t) == "\n" + LineFeeds(t)
    ensures LineFeeds("\r\n" + t) == "\n" + LineFeeds(t)
    ensures (t == "" || t[0] != '\n') ==> LineFeeds("\r" + t) == "\n" + LineFeeds(t)
  {
    LineFeedsBehind("\n", t);
    var u := Replace(t, "\r\n", "\n");
    var x := "\r\n" + t;
    assert x[0..2] == "\r\n" && x[2..] == t;
    assert Replace(x, "\r\n", "\n") == "\n" + u;
    ReplaceBehind("\n", u, "\r", "\n");
    var y := "\r" + t;
    assert y[1..] == t;
    if t == "" || t[0] != '\n' {
      if |y| >= 2 {
        assert y[0..2][1] == t[0];
      }
      assert !StartsWith(y, 0, "\r\n");
      assert Replace(y, "\r\n", "\n") == ['\r'] + u;
      var z := "\r" + u;
      assert z[0..1] == "\r" && z[1..] == u;
      assert Replace(z, "\r", "\n") == "\n" + Replace(u, "\r", "\n");
    }
  }

  /** Lines without line ends in them. */
  ghost predicate AreLines(lines: seq<string>) {
    forall l | l in lines :: '\n' !in l && '\r' !in l
  }

  lemma NoFeedAhead(lines: seq<string>, sep: string)
    requires AreLines(lines) && lines != [] && sep == "\r"
    ensures var t := Join(lines, sep); t == "" || t[0] != '\n'
  {
    assert lines[0] != "" ==> lines[0][0] in lines[0];
  }

  /** Whatever ends the lines of a text, line feeds end them afterwards. */
  lemma {:induction false} LineEndsDoNotMatter(lines: seq<string>, sep: string)
    requires AreLines(lines) && (sep == "\n" || sep == "\r\n" || sep == "\r")
    ensures LineFeeds(Join(lines, sep)) == Join(lines, "\n")
  {
    if |lines| == 1 {
      LineFeedsBehind(lines[0], "");
      assert lines[0] + "" == lines[0] && LineFeeds("") == "";
    } else if |lines| > 1 {
      var rest := Join(lines[1..], sep);
      LineEndsDoNotMatter(lines[1..], sep);
      Assoc(lines[0], sep, rest);
      LineFeedsBehind(lines[0], sep + rest);
      if sep == "\r" {
        NoFeedAhead(lines[1..], sep);
      }
      LineFeedsOfOneEnd(rest);
      Assoc(lines[0], "\n", Join(lines[1..], "\n"));
    }
  }

  // ----- two texts, one under the other --------------------------------------------------------

  lemma SpaceFrom(s: string, k: nat)
    requires k <= |s| && AllSpace(s[k..])
    ensures forall j | k <= j < |s| :: IsSpace(s[j])
  {
    hide IsSpace;
    assert forall j | k <= j < |s| :: s[j] == s[k..][j - k];
  }

  lemma RStripLenIs(s: string, k: nat)
    requires k <= |s| && AllSpace(s[k..]) && (k > 0 ==> !IsSpace(s[k - 1]))
    ensures RStripLen(s) == k
  {
    hide IsSpace, AllSpace, RStripLen;
    var n := RStripLen(s);
    SpaceFrom(s, k);
    SpaceFrom(s, n);
  }

  lemma RStripBehind(p: string, c: string)
    requires !AllSpace(c)
    ensures RStrip(p + c) == p + RStrip(c)
  {
    var k := RStripLen(c);
    BlankIsStripped(c);
    assert (p + c)[|p| + k..] == c[k..] && (p + c)[|p| + k - 1] == c[k - 1];
    RStripLenIs(p + c, |p| + k);
  }

  lemma NoReturn(a: string)
    requires Normalized(a) == a
    ensures '\r' !in a
  {
    ReplaceRemoves(Replace(a, "\r\n", "\n"), '\r', "\n");
    StripIsPart(LineFeeds(a), '\r');
  }

  lemma FirstStays(b: string)
    requires b != "" && !IsSpace(b[0])
    ensures LineFeeds(b) != "" && LineFeeds(b)[0] == b[0]
  {
    assert b == [b[0]] + b[1..];
    LineFeedsBehind([b[0]], b[1..]);
  }

  /** A text of its own normal form, and a text that begins with no blank under it. */
  lemma NormalizedUnder(a: string, b: string)
    requires Normalized(a) == a && a != "" && b != "" && !IsSpace(b[0])
    ensures Normalized(a + "\n" + b) == a + "\n" + Normalized(b)
    ensures Normalized(b) == RStrip(LineFeeds(b)) != "" && Normalized(b)[0] == b[0]
  {
    var c := LineFeeds(b);
    NoReturn(a);
    Assoc(a, "\n", b);
    LineFeedsBehind(a + "\n", b);
    FirstStays(b);
    var x := a + "\n" + c;
    NormalizedStart(a);
    assert x[0] == a[0];
    assert LStrip(x) == x && LStrip(c) == c;
    RStripBehind(a + "\n", c);
    BlankIsStripped(c);
  }

  lemma LinesUnder(a: string, c: string)
    ensures SplitLines(a + "\n" + c) == SplitLines(a) + SplitLines(c)
  {
    JoinAppend(SplitLines(a), SplitLines(c), "\n");
    SplitJoined(SplitLines(a) + SplitLines(c));
  }

  lemma CutAt(lines: seq<string>, k: nat, syn: Syntax)
    requires k < |lines|
    ensures k in Cuts(lines, syn) <==> k > 0 && StartsCommand(Feed(CLEAR, lines[..k]), lines[k], syn)
  {
    CutTest(lines, syn);
  }

  /** The cuts of two lists of lines together: those of the first, perhaps one between the two, and, when all pieces of
      the first are closed, those of the second. */
  lemma CutsUnder(la: seq<string>, lc: seq<string>, syn: Syntax)
    requires la != [] && lc != []
    ensures forall k: nat | k < |la| :: k in Cuts(la + lc, syn) <==> k in Cuts(la, syn)
    ensures |la| in Cuts(la + lc, syn) <==> StartsCommand(Feed(CLEAR, la), lc[0], syn)
    ensures Feed(CLEAR, la) == CLEAR ==>
              forall k: nat | 0 < k < |lc| :: |la| + k in Cuts(la + lc, syn) <==> k in Cuts(lc, syn)
  {
    hide Cuts, StartsCommand, Feed;
    var all := la + lc;
    forall k: nat | k < |la|
      ensures k in Cuts(all, syn) <==> k in Cuts(la, syn)
    {
      CutAt(la, k, syn);
      CutAt(all, k, syn);
      assert all[..k] == la[..k] && all[k] == la[k];
    }
    CutAt(all, |la|, syn);
    assert all[..|la|] == la && all[|la|] == lc[0];
    if Feed(CLEAR, la) == CLEAR {
      forall k: nat | 0 < k < |lc|
        ensures |la| + k in Cuts(all, syn) <==> k in Cuts(lc, syn)
      {
        CutAt(lc, k, syn);
        CutAt(all, |la| + k, syn);
        assert all[..|la| + k] == la + lc[..k] && all[|la| + k] == lc[k];
        FeedAppend(CLEAR, la, lc[..k]);
      }
    }
  }

  lemma {:induction false} BlocksOfSecond(la: seq<string>, lc: seq<string>, both: set<nat>, cuts: set<nat>, lo: nat,
                                          k: nat)
    requires lo < k <= |lc|
    requires forall j | k <= j < |lc| :: |la| + j in both <==> j in cuts
    ensures BlocksFrom(la + lc, both, |la| + lo, |la| + k) == BlocksFrom(lc, cuts, lo, k)
    decreases |lc| - k
  {
    hide Block;
    assert (la + lc)[|la| + lo..] == lc[lo..];
    assert (la + lc)[|la| + lo..|la| + k] == lc[lo..k];
    if k < |lc| {
      BlocksOfSecond(la, lc, both, cuts, if k in cuts then k else lo, k + 1);
    }
  }

  lemma {:induction false} BlocksOfFirst(la: seq<string>, lc: seq<string>, both: set<nat>, cuts: set<nat>, lo: nat,
                                         k: nat)
    requires lo < k <= |la| && lc != [] && |la| in both
    requires forall j | k <= j < |la| :: j in both <==> j in cuts
    ensures BlocksFrom(la + lc, both, lo, k) == BlocksFrom(la, cuts, lo, k) + BlocksFrom(la + lc, both, |la|, |la| + 1)
    decreases |la| - k
  {
    hide Block;
    assert (la + lc)[lo..k] == la[lo..k];
    if k == |la| {
      assert la[lo..k] == la[lo..];
    } else {
      BlocksOfFirst(la, lc, both, cuts, if k in cuts then k else lo, k + 1);
    }
  }

  lemma {:induction false} FirstBlockIs(lines: seq<string>, cuts: set<nat>, lo: nat, k: nat)
    requires lo < k <= |lines|
    ensures exists hi :: k <= hi <= |lines| && BlocksFrom(lines, cuts, lo, k) != []
              && BlocksFrom(lines, cuts, lo, k)[0] == Block(lines[lo..hi])
    decreases |lines| - k
  {
    if k == |lines| {
      assert lines[lo..k] == lines[lo..];
    } else if k in cuts {
      assert BlocksFrom(lines, cuts, lo, k)[0] == Block(lines[lo..k]);
    } else {
      FirstBlockIs(lines, cuts, lo, k + 1);
    }
  }

  lemma LongerBlock(la: seq<string>, lc: seq<string>, lo: nat, hi: nat)
    requires lo < |la| < hi <= |la + lc| && !AllSpace(lc[0])
    ensures |NonBlank(Block((la + lc)[lo..hi]))| > |NonBlank(Block(la[lo..]))|
  {
    var more := lc[..hi - |la|];
    assert (la + lc)[lo..hi] == la[lo..] + more;
    NonBlankOfBlock(la[lo..] + more);
    NonBlankOfBlock(la[lo..]);
    NonBlankAllAppend(la[lo..], more);
    var k :| 0 <= k < |lc[0]| && !IsSpace(lc[0][k]);
    NonBlankNotEmpty(lc[0], k);
    assert more[0] == lc[0];
  }

  /** Without a cut between the two, the last block of the first goes on: it has more characters that are not blank. */
  lemma {:induction false} BlockGoesOn(la: seq<string>, lc: seq<string>, both: set<nat>, cuts: set<nat>, lo: nat,
                                       k: nat)
    requires lo < k <= |la| && lc != [] && !AllSpace(lc[0]) && |la| !in both
    requires forall j | k <= j < |la| :: j in both <==> j in cuts
    ensures var (x, y) := (BlocksFrom(la + lc, both, lo, k), BlocksFrom(la, cuts, lo, k));
      |x| >= |y| > 0 && |NonBlank(x[|y| - 1])| > |NonBlank(y[|y| - 1])|
    decreases |la| - k
  {
    hide NonBlank, Block, AllSpace;
    assert (la + lc)[lo..k] == la[lo..k];
    if k == |la| {
      assert la[lo..k] == la[lo..];
      FirstBlockIs(la + lc, both, lo, k + 1);
      var hi :| |la| < hi <= |la + lc| && BlocksFrom(la + lc, both, lo, k + 1) != []
        && BlocksFrom(la + lc, both, lo, k + 1)[0] == Block((la + lc)[lo..hi]);
      LongerBlock(la, lc, lo, hi);
    } else {
      BlockGoesOn(la, lc, both, cuts, if k in cuts then k else lo, k + 1);
    }
  }

  // ----- where a cut is made -------------------------------------------------------------------

  /** The text up to the first line end. */
  function FirstLine(text: string): string {
    if text == "" || text[0] == '\n' || text[0] == '\r' then "" else [text[0]] + FirstLine(text[1..])
  }

  /** The first line of the text begins with a whole word of the list, or is a run of dots. */
  ghost predicate BeginsCommand(text: string, syn: Syntax) {
    var line := RStrip(FirstLine(text));
    IsDots(line) || exists kw :: kw in syn.starters && BeginsWith(line, kw, syn.wordTable)
  }

  lemma {:induction false} FirstLineEnds(text: string)
    ensures var l := FirstLine(text);
      && l <= text && '\n' !in l && '\r' !in l
      && (|l| < |text| ==> text[|l|] == '\n' || text[|l|] == '\r')
  {
    if text != "" && text[0] != '\n' && text[0] != '\r' {
      FirstLineEnds(text[1..]);
    }
  }

  lemma FirstLineIs(text: string, l: string)
    requires l <= text && '\n' !in l && '\r' !in l
    requires |l| < |text| ==> text[|l|] == '\n' || text[|l|] == '\r'
    ensures FirstLine(text) == l
  {
    FirstLineEnds(text);
    var m := FirstLine(text);
    assert forall j | 0 <= j < |l| :: text[j] == l[j] && l[j] in l;
    assert forall j | 0 <= j < |m| :: text[j] == m[j] && m[j] in m;
  }

  /** The first line that is split off. */
  lemma FirstLineOfLines(c: string)
    requires '\r' !in c
    ensures FirstLine(c) == SplitLines(c)[0]
  {
    var k := IndexOf(c, '\n');
    assert forall x | x in c[..k] :: x in c;
    FirstLineIs(c, c[..k]);
    assert k == |c| ==> c[..k] == c;
  }

  lemma FeedFirst(rest: string)
    requires rest != "" && (rest[0] == '\n' || rest[0] == '\r')
    ensures LineFeeds(rest) != "" && LineFeeds(rest)[0] == '\n'
  {
    var t := rest[1..];
    assert rest == [rest[0]] + t;
    if rest[0] == '\n' {
      LineFeedsOfOneEnd(t);
      assert rest == "\n" + t;
    } else if t != "" && t[0] == '\n' {
      LineFeedsOfOneEnd(t[1..]);
      assert rest == "\r\n" + t[1..];
    } else {
      LineFeedsOfOneEnd(t);
      assert rest == "\r" + t;
    }
  }

  lemma FirstLineOfFeeds(b: string)
    ensures FirstLine(LineFeeds(b)) == FirstLine(b)
  {
    FirstLineEnds(b);
    var l := FirstLine(b);
    var rest := b[|l|..];
    assert b == l + rest;
    LineFeedsBehind(l, rest);
    if rest != "" {
      assert rest[0] == b[|l|];
      assert rest == [rest[0]] + rest[1..];
      FeedFirst(rest);
    }
    FirstLineIs(LineFeeds(b), l);
  }

  lemma FirstLineOfRStrip(c: string)
    ensures RStrip(FirstLine(RStrip(c))) == RStrip(FirstLine(c))
  {
    hide IsSpace, FirstLine;
    FirstLineEnds(c);
    var (l, k) := (FirstLine(c), RStripLen(c));
    var n := c[..k];
    if k >= |l| {
      FirstLineIs(n, l);
    } else {
      assert n == l[..k];
      assert forall j | 0 <= j < k :: n[j] == l[j] && l[j] in l;
      FirstLineIs(n, n);
      assert forall j | k <= j < |l| :: l[j] == c[k..][j - k];
      assert l == n + l[k..] && AllSpace(l[k..]);
      RStripBlankEnd(n, l[k..]);
    }
  }

  lemma HasNoReturn(b: string)
    ensures '\r' !in Normalized(b)
  {
    ReplaceRemoves(Replace(b, "\r\n", "\n"), '\r', "\n");
    StripIsPart(LineFeeds(b), '\r');
  }

  /** What the splitter looks at in the first line of a text that begins with no blank. */
  lemma FirstLineSeen(b: string)
    requires b != "" && !IsSpace(b[0]) && Normalized(b) == RStrip(LineFeeds(b)) != ""
    ensures var line := RStrip(FirstLine(b));
      && Strip(RStrip(SplitLines(Normalized(b))[0])) == line != ""
      && !AllSpace(SplitLines(Normalized(b))[0])
  {
    hide LineFeeds;
    var n := Normalized(b);
    var first := SplitLines(n)[0];
    HasNoReturn(b);
    FirstLineOfLines(n);
    FirstLineOfRStrip(LineFeeds(b));
    FirstLineOfFeeds(b);
    var l := FirstLine(b);
    assert l != "" && l[0] == b[0];
    var line := RStrip(l);
    BlankIsStripped(l);
    assert RStrip(first) == line && line[0] == b[0];
    assert LStrip(line) == line;
    RStripTwice(l);
    BlankIsStripped(first);
  }

  lemma StartsExactly(state: Lex, b: string, syn: Syntax)
    requires b != "" && !IsSpace(b[0]) && Normalized(b) == RStrip(LineFeeds(b)) != ""
    ensures StartsCommand(state, SplitLines(Normalized(b))[0], syn) <==> state == CLEAR && BeginsCommand(b, syn)
  {
    hide Normalized, LineStarter;
    FirstLineSeen(b);
    LineStarterExactly(RStrip(FirstLine(b)), syn);
  }

  /** The blocks of two lists of lines together are those of both exactly when there is a cut between the two. */
  lemma BlocksUnder(la: seq<string>, lc: seq<string>, syn: Syntax)
    requires la != [] && lc != [] && !AllSpace(lc[0])
    requires StartsCommand(Feed(CLEAR, la), lc[0], syn) ==> Feed(CLEAR, la) == CLEAR
    ensures var whole := BlocksFrom(la + lc, Cuts(la + lc, syn), 0, 1);
      whole == BlocksFrom(la, Cuts(la, syn), 0, 1) + BlocksFrom(lc, Cuts(lc, syn), 0, 1) <==>
        StartsCommand(Feed(CLEAR, la), lc[0], syn)
  {
    hide Cuts, StartsCommand, Feed, BlocksFrom, AllSpace;
    var both := Cuts(la + lc, syn);
    CutsUnder(la, lc, syn);
    if |la| in both {
      BlocksOfFirst(la, lc, both, Cuts(la, syn), 0, 1);
      BlocksOfSecond(la, lc, both, Cuts(lc, syn), 0, 1);
    } else {
      BlockGoesOn(la, lc, both, Cuts(la, syn), 0, 1);
    }
  }

  /** The law of the cuts. A text in its normal form, and another text under it that begins with no blank: the blocks
      of the whole are those of the one and those of the other exactly when all comments, strings and cartouches of
      the first are closed, and the second begins with a command word. */
  lemma CutBetween(a: string, b: string, syn: Syntax)
    requires Normalized(a) == a && a != "" && b != "" && !IsSpace(b[0])
    ensures Blocks(a + "\n" + b, syn) == Blocks(a, syn) + Blocks(b, syn) <==>
              Run(CLEAR, a, 0) == CLEAR && BeginsCommand(b, syn)
  {
    hide Normalized, Cuts, StartsCommand, BeginsCommand, Run, Feed, BlocksFrom, SplitLines, RStrip, FirstLine,
        LineFeeds;
    NormalizedUnder(a, b);
    FirstLineSeen(b);
    LinesUnder(a, Normalized(b));
    IncrementalIsWhole(CLEAR, a);
    StartsExactly(Run(CLEAR, a, 0), b, syn);
    BlocksUnder(SplitLines(a), SplitLines(Normalized(b)), syn);
  }

  lemma FirstLineOfWord(kw: string, rest: string)
    requires IsCommandWord(kw)
    ensures !IsSpace(kw[0])
    ensures var line := RStrip(FirstLine(kw + rest));
      kw <= line && (|line| > |kw| ==> rest != "" && line[|kw|] == rest[0])
  {
    var b := kw + rest;
    FirstLineEnds(b);
    var l := FirstLine(b);
    assert forall k | 0 <= k < |kw| :: b[k] == kw[k] && !IsSpace(kw[k]);
    assert |l| >= |kw| && l[|kw| - 1] == kw[|kw| - 1];
    var k := RStripLen(l);
    assert forall j | k <= j < |l| :: l[j] == l[k..][j - k];
    assert k >= |kw|;
  }

  /** In particular a command word at the start of a line cuts; `rest` is what follows the word. */
  lemma WordCuts(a: string, kw: string, rest: string, syn: Syntax)
    requires Normalized(a) == a && a != "" && Run(CLEAR, a, 0) == CLEAR
    requires kw in syn.starters && IsCommandWord(kw) && (rest == "" || IsBoundary(rest[0], syn.wordTable))
    ensures Blocks(a + "\n" + kw + rest, syn) == Blocks(a, syn) + Blocks(kw + rest, syn)
  {
    hide Normalized, Blocks, Run;
    var b := kw + rest;
    FirstLineOfWord(kw, rest);
    var line := RStrip(FirstLine(b));
    assert BeginsWith(line, kw, syn.wordTable);
    Assoc(a + "\n", kw, rest);
    CutBetween(a, b, syn);
  }

  lemma StripOfRStrip(line: string)
    requires RStrip(LStrip(RStrip(line))) == LStrip(RStrip(line))
    ensures Strip(RStrip(line)) == LStrip(RStrip(line))
  {
  }

  lemma BlockBegins(lines: seq<string>, syn: Syntax, lo: nat, hi: nat)
    requires IsBody(lines) && lo < hi <= |lines| && lo in Cuts(lines, syn)
    ensures BeginsCommand(Block(lines[lo..hi]), syn)
  {
    hide Block, Feed, Strip;
    var group := lines[lo..hi];
    CutLineNotBlank(lines, lo, syn);
    assert group[0] == lines[lo];
    assert forall l | l in group :: l in lines;
    CutAt(lines, lo, syn);
    BlockIsJoined(group);
    BlockLinesHaveNoEnds(group);
    var bl := BlockLines(group);
    assert bl[0] in bl;
    assert bl == [bl[0]] + bl[1..];
    JoinFirst(bl[0], bl[1..]);
    FirstLineIs(Block(group), bl[0]);
    RStripTwice(group[0]);
    LStripKeepsEnd(RStrip(group[0]));
    StripOfRStrip(lines[lo]);
    LineStarterExactly(bl[0], syn);
  }

  ghost predicate AllBegin(blocks: seq<string>, syn: Syntax) {
    forall b | b in blocks :: BeginsCommand(b, syn)
  }

  lemma {:induction false} BeginningsFrom(lines: seq<string>, syn: Syntax, lo: nat, k: nat)
    requires IsBody(lines) && lo < k <= |lines| && (lo == 0 || lo in Cuts(lines, syn))
    ensures var bs := BlocksFrom(lines, Cuts(lines, syn), lo, k);
      AllBegin(bs[if lo > 0 || bs == [] then 0 else 1..], syn)
    decreases |lines| - k
  {
    hide Cuts, Block, BeginsCommand;
    if lo > 0 {
      BlockBegins(lines, syn, lo, k);
    }
    if k == |lines| {
      assert lines[lo..k] == lines[lo..];
    } else if k in Cuts(lines, syn) {
      BeginningsFrom(lines, syn, k, k + 1);
      var rest := BlocksFrom(lines, Cuts(lines, syn), k, k + 1);
      assert rest[0..] == rest && ([Block(lines[lo..k])] + rest)[1..] == rest;
    } else {
      BeginningsFrom(lines, syn, lo, k + 1);
    }
  }

  /** And every block but the first begins with a command word or dots. */
  lemma BlocksBeginCommands(body: string, syn: Syntax)
    ensures Blocks(body, syn) != [] ==> AllBegin(Blocks(body, syn)[1..], syn)
  {
    var text := Normalized(body);
    if text != "" {
      var lines := SplitLines(text);
      LinesOfBody(body);
      BeginningsFrom(lines, syn, 0, 1);
    }
  }
}

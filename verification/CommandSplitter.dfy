/** `split_commands` of evaluation/scripts/theory_splitter.py: cut a theory body into command blocks. */
module CommandSplitter {
  import opened Text
  import opened TheoryLexer

  /** Sorted by decreasing length, then by name. */
  const COMMAND_STARTERS: seq<string> :=
    ["typed_print_translation", "parse_ast_translation", "print_ast_translation", "no_adhoc_overloading"] +
    ["adhoc_overloading", "parse_translation", "print_translation", "subsubsubsection", "lift_definition"] +
    ["no_translations", "print_statement", "axiomatization", "interpretation", "named_theorems"] +
    ["print_theorems", "schematic_goal", "find_theorems", "inductive_set", "instantiation", "subsubsection"] +
    ["abbreviation", "method_setup", "print_record", "subparagraph", "translations", "coinductive"] +
    ["no_notation", "proposition", "termination", "SML_export", "codatatype", "definition", "experiment"] +
    ["hide_class", "hide_const", "subsection", "ultimately", "apply_end", "corollary", "hide_fact"] +
    ["hide_type", "including", "inductive", "no_syntax", "paragraph", "sublocale", "unfolding", "datatype"] +
    ["function", "instance", "moreover", "notation", "text_raw", "unbundle", "ML_file", "chapter", "context"] +
    ["declare", "finally", "include", "notepad", "presume", "primrec", "section", "subgoal", "theorem"] +
    ["typedef", "assume", "bundle", "consts", "define", "lemmas", "locale", "obtain", "oracle"] +
    ["prefer", "record", "supply", "syntax", "values", "apply", "class", "defer", "guess"] +
    ["hence", "lemma", "proof", "setup", "sorry", "using", "value", "write", "also"] +
    ["back", "case", "done", "from", "have", "next", "note", "oops", "prop"] +
    ["show", "term", "text", "then", "thus", "with", "end", "fix", "fun"] +
    ["let", "qed", "thm", "typ", "ML", "by"]

  /** What decides whether a line starts a command: the keyword list and the Unicode word characters outside ASCII.
      Every result below holds for all of them. */
  datatype Syntax = Syntax(starters: seq<string>, wordTable: char -> bool)

  /** `^kw(\b|\s|\(|$)` matches at the start of `s`; every keyword ends in a word character. */
  predicate StartsWithKeyword(s: string, kw: string, wordTable: char -> bool) {
    kw <= s && (|s| == |kw| || !IsWord(s[|kw|], wordTable))
  }

  function FirstStarter(s: string, kws: seq<string>, wordTable: char -> bool): Option<string> {
    if kws == [] then None
    else if StartsWithKeyword(s, kws[0], wordTable) then Some(kws[0])
    else FirstStarter(s, kws[1..], wordTable)
  }

  /** `_line_starter_keyword` */
  function LineStarter(stripped: string, syn: Syntax): Option<string> {
    if stripped == "." || stripped == ".." || stripped == "..." then Some(stripped)
    else FirstStarter(stripped, syn.starters, syn.wordTable)
  }

  function RStripAll(lines: seq<string>): (r: seq<string>)
    ensures |r| == |lines| && forall k | 0 <= k < |r| :: r[k] == RStrip(lines[k])
  {
    seq(|lines|, k requires 0 <= k < |lines| => RStrip(lines[k]))
  }

  /** The block made from a group of raw lines. */
  function Block(group: seq<string>): string {
    Strip(Join(RStripAll(group), "\n"))
  }

  /** All three kinds of line ends become line feeds. */
  function LineFeeds(text: string): string {
    Replace(Replace(text, "\r\n", "\n"), "\r", "\n")
  }

  /** The body after the newline normalisation and the outer strip. */
  function Normalized(body: string): string {
    Strip(LineFeeds(body))
  }

  predicate StartsCommand(state: Lex, rawLine: string, syn: Syntax) {
    && state.Clear()
    && Strip(RStrip(rawLine)) != ""
    && LineStarter(Strip(RStrip(rawLine)), syn).Some?
  }

  /** A new block begins at line `k`: the lexer, run over the whole text before that line, is clear and
      the line starts with a command keyword. */
  predicate IsCut(lines: seq<string>, k: nat, syn: Syntax)
    requires k < |lines|
  {
    k > 0 && StartsCommand(Run(CLEAR, Join(lines[..k], "\n"), 0), lines[k], syn)
  }

  function Cuts(lines: seq<string>, syn: Syntax): set<nat> {
    set k: nat | k < |lines| && IsCut(lines, k, syn)
  }

  /** The blocks of `lines[lo..]`, when no cut lies between `lo` and `k`. */
  function BlocksFrom(lines: seq<string>, cuts: set<nat>, lo: nat, k: nat): seq<string>
    requires lo < k <= |lines|
    decreases |lines| - k
  {
    if k == |lines| then [Block(lines[lo..])]
    else if k in cuts then [Block(lines[lo..k])] + BlocksFrom(lines, cuts, k, k + 1)
    else BlocksFrom(lines, cuts, lo, k + 1)
  }

  /** The blocks of a body: one between each two neighbouring cuts. */
  function Blocks(body: string, syn: Syntax): seq<string> {
    var text := Normalized(body);
    if text == "" then []
    else
      var lines := SplitLines(text);
      BlocksFrom(lines, Cuts(lines, syn), 0, 1)
  }

  /** The keywords of the source; `wordTable` knows the word characters outside ASCII. */
  function SourceSyntax(wordTable: char -> bool): Syntax {
    Syntax(COMMAND_STARTERS, wordTable)
  }

  lemma FeedLine(lines: seq<string>, k: nat)
    requires k < |lines|
    ensures Feed(CLEAR, lines[..k + 1]) == Run(Run(Feed(CLEAR, lines[..k]), lines[k], 0), "\n", 0)
  {
    assert lines[..k + 1] == lines[..k] + [lines[k]];
    FeedAppend(CLEAR, lines[..k], [lines[k]]);
  }

  method AdvanceLine(state: LexState, lines: seq<string>, k: nat)
    requires k < |lines| && state.Value() == Feed(CLEAR, lines[..k])
    modifies state
    ensures state.Value() == Feed(CLEAR, lines[..k + 1])
  {
    state.Advance(lines[k]);
    state.Advance("\n");
    FeedLine(lines, k);
  }

  function Flush(commands: seq<string>, current: seq<string>): seq<string> {
    var block := Strip(Join(current, "\n"));
    if block != "" then commands + [block] else commands
  }

  // ----- no block is empty ---------------------------------------------------------------------

  lemma {:induction false} NonBlankNotEmpty(s: string, k: nat)
    requires k < |s| && !IsSpace(s[k])
    ensures NonBlank(s) != ""
  {
    if k > 0 {
      NonBlankNotEmpty(s[1..], k - 1);
    }
  }

  function NonBlankAll(parts: seq<string>): string {
    if parts == [] then "" else NonBlank(parts[0]) + NonBlankAll(parts[1..])
  }

  lemma {:induction false} NonBlankJoin(parts: seq<string>, sep: string)
    requires AllSpace(sep)
    ensures NonBlank(Join(parts, sep)) == NonBlankAll(parts)
  {
    if |parts| > 1 {
      NonBlankJoin(parts[1..], sep);
      NonBlankAppend(parts[0] + sep, Join(parts[1..], sep));
      NonBlankAppend(parts[0], sep);
      NonBlankOfSpace(sep);
    }
  }

  lemma {:induction false} NonBlankRStripAll(lines: seq<string>)
    ensures NonBlankAll(RStripAll(lines)) == NonBlankAll(lines)
  {
    if lines != [] {
      NonBlankRStrip(lines[0]);
      assert RStripAll(lines)[1..] == RStripAll(lines[1..]);
      NonBlankRStripAll(lines[1..]);
    }
  }

  lemma NonBlankOfBlock(group: seq<string>)
    ensures NonBlank(Block(group)) == NonBlankAll(group)
  {
    NonBlankStrip(Join(RStripAll(group), "\n"));
    NonBlankJoin(RStripAll(group), "\n");
    NonBlankRStripAll(group);
  }

  lemma BlockNotEmpty(group: seq<string>)
    requires group != [] && !AllSpace(group[0])
    ensures Block(group) != ""
  {
    var k :| 0 <= k < |group[0]| && !IsSpace(group[0][k]);
    NonBlankNotEmpty(group[0], k);
    NonBlankOfBlock(group);
    NonBlankJoin(group, "\n");
  }

  lemma FlushGroup(commands: seq<string>, group: seq<string>)
    requires group != [] && !AllSpace(group[0])
    ensures Flush(commands, RStripAll(group)) == commands + [Block(group)]
  {
    BlockNotEmpty(group);
  }

  // ----- the loop over the lines ---------------------------------------------------------------

  lemma CutStep(commands: seq<string>, lines: seq<string>, cuts: set<nat>, lo: nat, k: nat)
    requires lo < k < |lines| && k in cuts
    ensures commands + BlocksFrom(lines, cuts, lo, k)
         == commands + [Block(lines[lo..k])] + BlocksFrom(lines, cuts, k, k + 1)
  {
  }

  lemma NoCutStep(lines: seq<string>, cuts: set<nat>, lo: nat, k: nat)
    requires lo < k < |lines| && k !in cuts
    ensures BlocksFrom(lines, cuts, lo, k) == BlocksFrom(lines, cuts, lo, k + 1)
  {
  }

  lemma ExtendGroup(lines: seq<string>, lo: nat, k: nat)
    requires lo <= k < |lines|
    ensures RStripAll(lines[lo..k + 1]) == RStripAll(lines[lo..k]) + [RStrip(lines[k])]
  {
  }

  lemma BlankLineStripsToNothing(line: string)
    requires Strip(RStrip(line)) != ""
    ensures line != "" && !AllSpace(line)
  {
    var t := Strip(RStrip(line));
    NonBlankNotEmpty(t, |t| - 1);
    NonBlankRStrip(line);
    NonBlankStrip(RStrip(line));
    if AllSpace(line) {
      NonBlankOfSpace(line);
      assert false;
    }
  }

  /** The loop of `split_commands`: it tests the state it keeps from line to line. */
  method CutLines(lines: seq<string>, syn: Syntax, ghost cuts: set<nat>) returns (commands: seq<string>)
    requires lines != [] && !AllSpace(lines[0])
    requires forall k: nat {:trigger k in cuts} | k < |lines| ::
               k in cuts <==> k > 0 && StartsCommand(Feed(CLEAR, lines[..k]), lines[k], syn)
    ensures commands == BlocksFrom(lines, cuts, 0, 1)
  {
    hide RStripAll, LineStarter;
    var state := new LexState();
    commands := [];
    var current: seq<string> := [];
    ghost var lo := 0;
    ghost var blocks := BlocksFrom(lines, cuts, 0, 1);
    for k := 0 to |lines|
      invariant fresh(state) && state.Value() == Feed(CLEAR, lines[..k])
      invariant lo <= k && (k == 0 ==> current == [] && commands == [])
      invariant k > 0 ==> lo < k && !AllSpace(lines[lo]) && current == RStripAll(lines[lo..k])
      invariant k > 0 ==> commands + BlocksFrom(lines, cuts, lo, k) == blocks
    {
      var rawLine := lines[k];
      var line := RStrip(rawLine);
      var stripped := Strip(line);
      var safeLineStart := state.Clear();
      var starter := if safeLineStart && stripped != "" then LineStarter(stripped, syn) else None;
      if current != [] && starter.Some? {
        FlushGroup(commands, lines[lo..k]);
        CutStep(commands, lines, cuts, lo, k);
        BlankLineStripsToNothing(rawLine);
        commands := Flush(commands, current);
        current := [];
        lo := k;
      } else if k > 0 {
        NoCutStep(lines, cuts, lo, k);
      }
      current := current + [line];
      ExtendGroup(lines, lo, k);
      AdvanceLine(state, lines, k);
    }
    FlushGroup(commands, lines[lo..|lines|]);
    assert lines[lo..|lines|] == lines[lo..];
    commands := Flush(commands, current);
  }

  /** The test on the incremental state decides exactly the cuts of the whole text. */
  lemma CutTest(lines: seq<string>, syn: Syntax)
    ensures forall k: nat | k < |lines| ::
      k in Cuts(lines, syn) <==> k > 0 && StartsCommand(Feed(CLEAR, lines[..k]), lines[k], syn)
  {
    forall k: nat | k < |lines|
      ensures k in Cuts(lines, syn) <==> k > 0 && StartsCommand(Feed(CLEAR, lines[..k]), lines[k], syn)
    {
      FeedIsRun(CLEAR, lines[..k]);
    }
  }

  lemma FirstLineNotBlank(text: string)
    requires text != "" && !IsSpace(text[0])
    ensures !AllSpace(SplitLines(text)[0])
  {
    var lines := SplitLines(text);
    assert IndexOf(text, '\n') > 0;
    assert lines[0][0] == text[0];
  }

  lemma NormalizedStart(body: string)
    ensures Normalized(body) != "" ==> !IsSpace(Normalized(body)[0])
  {
  }

  method SplitCommands(bodyText: string, wordTable: char -> bool) returns (commands: seq<string>)
    ensures commands == Blocks(bodyText, SourceSyntax(wordTable))
  {
    hide SourceSyntax;
    var syn := SourceSyntax(wordTable);
    var text := Normalized(bodyText);
    if text == "" {
      return [];
    }
    var lines := SplitLines(text);
    NormalizedStart(bodyText);
    FirstLineNotBlank(text);
    CutTest(lines, syn);
    commands := CutLines(lines, syn, Cuts(lines, syn));
  }

  // ----- the blocks keep every character that is not blank -------------------------------------

  lemma {:induction false} NonBlankAllAppend(a: seq<string>, b: seq<string>)
    ensures NonBlankAll(a + b) == NonBlankAll(a) + NonBlankAll(b)
  {
    if a == [] {
      assert a + b == b;
    } else {
      assert (a + b)[1..] == a[1..] + b;
      NonBlankAllAppend(a[1..], b);
    }
  }

  lemma NonBlankAllOne(b: string, rest: seq<string>)
    ensures NonBlankAll([b] + rest) == NonBlank(b) + NonBlankAll(rest)
    ensures NonBlankAll([b]) == NonBlank(b)
  {
    assert ([b] + rest)[1..] == rest;
  }

  lemma {:induction false} BlocksFromKeepText(lines: seq<string>, cuts: set<nat>, lo: nat, k: nat)
    requires lo < k <= |lines|
    ensures NonBlankAll(BlocksFrom(lines, cuts, lo, k)) == NonBlankAll(lines[lo..])
    decreases |lines| - k
  {
    hide NonBlankAll, Block;
    if k == |lines| {
      NonBlankOfBlock(lines[lo..]);
      NonBlankAllOne(Block(lines[lo..]), []);
    } else if k in cuts {
      BlocksFromKeepText(lines, cuts, k, k + 1);
      NonBlankOfBlock(lines[lo..k]);
      NonBlankAllOne(Block(lines[lo..k]), BlocksFrom(lines, cuts, k, k + 1));
      NonBlankAllAppend(lines[lo..k], lines[k..]);
      assert lines[lo..] == lines[lo..k] + lines[k..];
    } else {
      BlocksFromKeepText(lines, cuts, lo, k + 1);
    }
  }

  /** The characters of all blocks that are not blank are, in order, exactly those of the body. */
  lemma BlocksKeepText(body: string, syn: Syntax)
    ensures NonBlankAll(Blocks(body, syn)) == NonBlank(body)
  {
    var text := Normalized(body);
    var unix := Replace(body, "\r\n", "\n");
    NonBlankReplace(body, "\r\n", "\n");
    NonBlankReplace(unix, "\r", "\n");
    NonBlankStrip(Replace(unix, "\r", "\n"));
    if text != "" {
      var lines := SplitLines(text);
      BlocksFromKeepText(lines, Cuts(lines, syn), 0, 1);
      NonBlankJoin(lines, "\n");
      assert lines[0..] == lines;
    }
  }

  // ----- every block but the last is balanced --------------------------------------------------

  lemma {:induction false} FeedRStrip(s: Lex, lines: seq<string>)
    ensures Feed(s, RStripAll(lines)) == Feed(s, lines)
    decreases |lines|
  {
    if lines != [] {
      RunRStrip(s, lines[0]);
      assert RStripAll(lines)[1..] == RStripAll(lines[1..]);
      FeedRStrip(Run(Run(s, lines[0], 0), "\n", 0), lines[1..]);
    }
  }

  /** Stripping lines and blocks does not change what the lexer makes of them. */
  lemma BlockRun(s: Lex, group: seq<string>)
    ensures Run(s, Block(group), 0) == Feed(s, group)
  {
    RunStrip(s, Join(RStripAll(group), "\n"));
    FeedIsRun(s, RStripAll(group));
    FeedRStrip(s, group);
  }

  ghost predicate AllClear(blocks: seq<string>) {
    forall i | 0 <= i < |blocks| :: Run(CLEAR, blocks[i], 0).Clear()
  }

  /** Between two places where the whole-text lexer is clear, a block is balanced. */
  lemma GroupRun(lines: seq<string>, lo: nat, k: nat)
    requires lo <= k <= |lines|
    requires Feed(CLEAR, lines[..lo]) == CLEAR
    ensures Run(CLEAR, Block(lines[lo..k]), 0) == Feed(CLEAR, lines[..k])
  {
    assert lines[..k] == lines[..lo] + lines[lo..k];
    FeedAppend(CLEAR, lines[..lo], lines[lo..k]);
    BlockRun(CLEAR, lines[lo..k]);
  }

  lemma CutsAreClear(lines: seq<string>, syn: Syntax)
    ensures forall k | k in Cuts(lines, syn) :: k < |lines| && Feed(CLEAR, lines[..k]) == CLEAR
  {
    forall k | k in Cuts(lines, syn)
      ensures k < |lines| && Feed(CLEAR, lines[..k]) == CLEAR
    {
      FeedIsRun(CLEAR, lines[..k]);
    }
  }

  lemma {:induction false} BlocksFromBalanced(lines: seq<string>, cuts: set<nat>, lo: nat, k: nat)
    requires lo < k <= |lines|
    requires Feed(CLEAR, lines[..lo]) == CLEAR
    requires forall c | c in cuts :: c < |lines| && Feed(CLEAR, lines[..c]) == CLEAR
    ensures var bs := BlocksFrom(lines, cuts, lo, k);
      && bs != []
      && AllClear(bs[..|bs| - 1])
      && Run(CLEAR, bs[|bs| - 1], 0) == Feed(CLEAR, lines)
    decreases |lines| - k
  {
    if k == |lines| {
      GroupRun(lines, lo, k);
      assert lines[lo..k] == lines[lo..] && lines[..k] == lines;
    } else if k in cuts {
      GroupRun(lines, lo, k);
      BlocksFromBalanced(lines, cuts, k, k + 1);
      var b := Block(lines[lo..k]);
      var rest := BlocksFrom(lines, cuts, k, k + 1);
      assert ([b] + rest)[..|rest|] == [b] + rest[..|rest| - 1];
    } else {
      BlocksFromBalanced(lines, cuts, lo, k + 1);
    }
  }

  lemma RunSwap(s: Lex, pre: string, w: string, rest: string, w': string, rest': string)
    requires w != "" && AllSpace(w) && w' != "" && AllSpace(w')
    requires Run(Run(s, pre, 0), "" + rest, 0) == Run(Run(s, pre, 0), "" + rest', 0)
    ensures Run(s, pre + (w + rest), 0) == Run(s, pre + (w' + rest'), 0)
  {
    RunSplit(s, pre, w, rest);
    RunSplit(s, pre, w', rest');
    Assoc(pre, w, rest);
    Assoc(pre, w', rest');
    assert "" + rest == rest && "" + rest' == rest';
  }

  /** Swapping one run of blanks for another leaves the final lexer state as it was. */
  lemma {:induction false} RunReplace(s: Lex, pre: string, t: string, target: string, replacement: string)
    requires target != "" && AllSpace(target) && replacement != "" && AllSpace(replacement)
    ensures Run(s, pre + Replace(t, target, replacement), 0) == Run(s, pre + t, 0)
    decreases |t|
  {
    if t == "" {
    } else if StartsWith(t, 0, target) {
      var rest := t[|target|..];
      var rest' := Replace(rest, target, replacement);
      RunReplace(Run(s, pre, 0), "", rest, target, replacement);
      RunSwap(s, pre, target, rest, replacement, rest');
      assert target + rest == t;
    } else {
      RunReplace(s, pre + [t[0]], t[1..], target, replacement);
      Assoc(pre, [t[0]], t[1..]);
      Assoc(pre, [t[0]], Replace(t[1..], target, replacement));
      assert [t[0]] + t[1..] == t;
    }
  }

  lemma RunNormalized(s: Lex, body: string)
    ensures Run(s, Normalized(body), 0) == Run(s, body, 0)
  {
    var unix := Replace(body, "\r\n", "\n");
    RunReplace(s, "", body, "\r\n", "\n");
    RunReplace(s, "", unix, "\r", "\n");
    assert "" + body == body && "" + unix == unix;
    var text := Replace(unix, "\r", "\n");
    assert "" + text == text;
    RunStrip(s, text);
  }

  /** Each block but the last, lexed alone, ends outside every comment, string and cartouche; the last one
      ends in the state in which the whole body ends. */
  lemma BlocksBalanced(body: string, syn: Syntax)
    ensures var bs := Blocks(body, syn);
      && (bs != [] ==> AllClear(bs[..|bs| - 1]) && Run(CLEAR, bs[|bs| - 1], 0) == Run(CLEAR, body, 0))
  {
    var text := Normalized(body);
    RunNormalized(CLEAR, body);
    if text != "" {
      IncrementalIsWhole(CLEAR, text);
      CutsAreClear(SplitLines(text), syn);
      BlocksFromBalanced(SplitLines(text), Cuts(SplitLines(text), syn), 0, 1);
    }
  }
}

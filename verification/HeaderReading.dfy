/** How server/app/services/theory_parsing.py reads a theory header that somebody has written: any spacing, bare and
    quoted names, comments anywhere between the words. */
module HeaderReading {
  import opened Text
  import opened HeaderParsing
  import opened HeaderRoundTrip
  import G = LexerGrammar

  // ----- a written header ----------------------------------------------------------------------

  datatype Name = Bare(text: string) | Quoted(text: string) {
    function Shown(): string {
      if Bare? then text else "\"" + text + "\""
    }
  }

  /** An import and the blanks behind it. */
  datatype Item = Item(name: Name, gap: string)

  /** Blank lines, the indentation, the theory name, the imports, and what follows the word `begin`, if it is there. The
      gaps are the blanks behind `theory`, the name and `imports`. */
  datatype Written = Written(lines: string, indent: string, gap: string, name: Name, gap': string, gap'': string,
                             items: seq<Item>, end: Option<string>)

  function ItemsText(items: seq<Item>): string {
    if items == [] then "" else items[0].name.Shown() + (items[0].gap + ItemsText(items[1..]))
  }

  function Behind(h: Written): string {
    h.gap'' + (ItemsText(h.items) + if h.end.Some? then "begin" + h.end.value else "")
  }

  function BehindName(h: Written): string {
    h.gap' + ("imports" + Behind(h))
  }

  function TextOf(h: Written): string {
    h.lines + (h.indent + ("theory" + (h.gap + (h.name.Shown() + BehindName(h)))))
  }

  function TextsOf(items: seq<Item>): seq<string> {
    if items == [] then [] else [items[0].name.text] + TextsOf(items[1..])
  }

  /** The imports that are read: all names but the header words among them. */
  function NamesOf(items: seq<Item>): seq<string> {
    if items == [] then []
    else if items[0].name.text in ["imports", "theory", "keywords"] then NamesOf(items[1..])
    else [items[0].name.text] + NamesOf(items[1..])
  }

  // ----- what may be written -------------------------------------------------------------------

  predicate IsGap(s: string) {
    s != "" && AllSpace(s)
  }

  /** Letters, digits, underscore, prime, dot and dash; or anything but quotes and line feeds between quotes. */
  predicate IsTheoryName(n: Name) {
    && n.text != ""
    && forall k | 0 <= k < |n.text| ::
         var c := n.text[k];
         if n.Quoted? then c != '"' && c != '\n'
         else 'a' <= c <= 'z' || 'A' <= c <= 'Z' || '0' <= c <= '9' || c == '_' || c == '\'' || c == '.' || c == '-'
  }

  /** A letter or underscore, and then letters, digits, underscore, dot, slash and dash; or anything but quotes between
      quotes. */
  predicate IsImportName(n: Name) {
    && n.text != ""
    && forall k | 0 <= k < |n.text| ::
         var c := n.text[k];
         if n.Quoted? then c != '"'
         else
           || 'a' <= c <= 'z' || 'A' <= c <= 'Z' || c == '_'
           || (k > 0 && ('0' <= c <= '9' || c == '.' || c == '/' || c == '-'))
  }

  predicate BeginStands(s: string, k: nat, wordTable: char -> bool) {
    && k + 5 <= |s| && s[k..k + 5] == "begin"
    && (k == 0 || IsBoundary(s[k - 1], wordTable)) && (k + 5 == |s| || IsBoundary(s[k + 5], wordTable))
  }

  /** The whole word `begin` is in the text. */
  predicate HoldsBegin(s: string, wordTable: char -> bool) {
    exists k: nat :: k < |s| && BeginStands(s, k, wordTable)
  }

  /** A name that does not end the imports. */
  predicate IsImport(n: Name, wordTable: char -> bool) {
    IsImportName(n) && !HoldsBegin(n.text, wordTable)
  }

  predicate ItemsOk(items: seq<Item>, wordTable: char -> bool) {
    forall k | 0 <= k < |items| :: IsImport(items[k].name, wordTable) && IsGap(items[k].gap)
  }

  /** The words are where they have to be, and no blank is a word character of the table. */
  ghost predicate IsWritten(h: Written, wordTable: char -> bool) {
    && AllSpace(h.lines) && (h.lines == "" || h.lines[|h.lines| - 1] == '\n')
    && (forall k | 0 <= k < |h.indent| :: h.indent[k] == ' ' || h.indent[k] == '\t')
    && IsGap(h.gap) && IsGap(h.gap') && IsGap(h.gap'')
    && IsTheoryName(h.name) && ItemsOk(h.items, wordTable)
    && (h.end.Some? && h.end.value != "" ==> IsBoundary(h.end.value[0], wordTable))
    && forall c | IsSpace(c) :: !wordTable(c)
  }

  // ----- the theory name -----------------------------------------------------------------------

  lemma SpanFront(a: string, t: string, p: char -> bool)
    requires (forall k | 0 <= k < |a| :: p(a[k])) && (t == "" || !p(t[0]))
    ensures Span(a + t, 0, p) == |a|
  {
    var x := a + t;
    assert forall k | 0 <= k < |a| :: x[k] == a[k];
    SpanIs(x, 0, |a|, p);
  }

  lemma QuotedIsRead(n: string, t: string)
    requires n != "" && forall k | 0 <= k < |n| :: n[k] != '"' && n[k] != '\n'
    ensures NameAt("\"" + n + "\"" + t, 0) == Some((n, |n| + 2))
  {
    hide Span;
    var y := n + ("\"" + t);
    var x := "\"" + y;
    assert x == "\"" + n + "\"" + t;
    SpanFront(n, "\"" + t, IsQuotable);
    SpanShift("\"", y, 0, IsQuotable);
    var k := 1 + |n|;
    assert Span(x, 1, IsQuotable) == k && x[k] == '"' && x[1..k] == n;
  }

  lemma NameIsRead(n: Name, t: string)
    requires IsTheoryName(n) && t != "" && IsSpace(t[0])
    ensures NameAt(n.Shown() + t, 0) == Some((n.text, |n.Shown()|)) && n.Shown() != "" && !IsSpace(n.Shown()[0])
  {
    hide Span;
    if n.Quoted? {
      QuotedIsRead(n.text, t);
    } else {
      var x := n.text + t;
      SpanFront(n.text, t, IsNameChar);
      assert x[0] == n.text[0] && x[0..|n.text|] == n.text;
    }
  }

  lemma GapIsSkipped(gap: string, n: Name, t: string)
    requires IsGap(gap) && IsTheoryName(n) && t != "" && IsSpace(t[0])
    ensures NameAfter(gap + (n.Shown() + t), 0) == Some((n.text, |gap| + |n.Shown()|))
  {
    hide Span, NameAt, IsSpace, IsTheoryName, Name.Shown;
    NameIsRead(n, t);
    var u := n.Shown() + t;
    assert u != "" && u[0] == n.Shown()[0];
    SpanFront(gap, u, IsSpace);
    NameAtShift(gap, u, 0);
  }

  lemma KeywordIsRead(y: string)
    ensures NameAfterKeyword("theory" + y, 0, "theory") == ShiftMatch(NameAfter(y, 0), 6)
  {
    hide NameAfter;
    NameAfterShift("theory", y, 0);
    KeywordAt("theory", y);
  }

  lemma IndentIsSkipped(indent: string, z: string)
    requires forall k | 0 <= k < |indent| :: indent[k] == ' ' || indent[k] == '\t'
    requires z != "" && z[0] == 't'
    ensures TheoryAt(indent + z, 0) == ShiftMatch(NameAfterKeyword(z, 0, "theory"), |indent|)
  {
    hide NameAfterKeyword, Span;
    SpanFront(indent, z, IsTab);
    NameAfterKeywordShift(indent, z, 0, "theory");
  }

  lemma FoundAtStart(x: string)
    requires TheoryAt(x, 0).Some?
    ensures FindTheory(x, 0) == TheoryAt(x, 0)
  {
  }

  lemma LineIsRead(indent: string, gap: string, n: Name, t: string)
    requires forall k | 0 <= k < |indent| :: indent[k] == ' ' || indent[k] == '\t'
    requires IsGap(gap) && IsTheoryName(n) && t != "" && IsSpace(t[0])
    ensures FindTheory(indent + ("theory" + (gap + (n.Shown() + t))), 0)
         == Some((n.text, |indent| + 6 + |gap| + |n.Shown()|))
  {
    hide TheoryAt, FindTheory, NameAfterKeyword, NameAfter, IsSpace, IsTheoryName, Name.Shown, IsGap;
    var y := gap + (n.Shown() + t);
    GapIsSkipped(gap, n, t);
    var z := "theory" + y;
    KeywordIsRead(y);
    assert z[0] == 't';
    IndentIsSkipped(indent, z);
    FoundAtStart(indent + z);
  }

  // ----- the words -----------------------------------------------------------------------------

  lemma SpaceIsNoWord(c: char, wordTable: char -> bool)
    requires IsSpace(c) && !wordTable(c)
    ensures !IsWord(c, wordTable) && c !in "begin" && c != '"'
  {
  }

  lemma ImportsIsFound(gap: string, t: string, wordTable: char -> bool)
    requires IsGap(gap) && t != "" && IsSpace(t[0]) && forall c | IsSpace(c) :: !wordTable(c)
    ensures FindWord(gap + ("imports" + t), 0, "imports", wordTable) == Some(|gap|)
  {
    var x := gap + ("imports" + t);
    var n := |gap|;
    assert x[n..n + 7] == "imports" && x[n - 1] == gap[n - 1] && x[n + 7] == t[0];
    SpaceIsNoWord(x[n - 1], wordTable);
    SpaceIsNoWord(x[n + 7], wordTable);
    forall j | 0 <= j < n
      ensures !WordAt(x, j, "imports", wordTable)
    {
      StartsFirst(x, j, "imports");
      assert x[j] == gap[j] && !IsSpace('i');
    }
    FindWordIs(x, 0, "imports", n, wordTable);
  }

  /** A character that is in no word, and not in `begin`. */
  lemma BeginSplits(a: string, c: char, b: string, wordTable: char -> bool)
    requires c !in "begin" && !IsWord(c, wordTable)
    ensures NoBegin(a + [c] + b, wordTable) <==> NoBegin(a, wordTable) && NoBegin(b, wordTable)
  {
    hide WordAt;
    var x := a + [c] + b;
    if NoBegin(x, wordTable) {
      forall k: nat
        ensures !WordAt(a, k, "begin", wordTable) && !WordAt(b, k, "begin", wordTable)
      {
        WordSplit(a, c, b, k, "begin", wordTable);
        WordSplit(a, c, b, |a| + 1 + k, "begin", wordTable);
      }
    }
    if NoBegin(a, wordTable) && NoBegin(b, wordTable) {
      forall k: nat
        ensures !WordAt(x, k, "begin", wordTable)
      {
        WordSplit(a, c, b, k, "begin", wordTable);
      }
    }
  }

  lemma NothingBegins(wordTable: char -> bool)
    ensures NoBegin("", wordTable)
  {
  }

  lemma {:induction false} NoBeginInGap(a: string, gap: string, t: string, wordTable: char -> bool)
    requires IsGap(gap) && (forall c | IsSpace(c) :: !wordTable(c))
    ensures NoBegin(a + (gap + t), wordTable) <==> NoBegin(a, wordTable) && NoBegin(t, wordTable)
    decreases |gap|
  {
    hide NoBegin, IsSpace;
    assert AllSpace(gap[1..]);
    var (c, more) := (gap[0], gap[1..]);
    SpaceIsNoWord(c, wordTable);
    BeginSplits(a, c, more + t, wordTable);
    assert a + [c] + (more + t) == a + (gap + t);
    if more == "" {
      assert more + t == t;
    } else {
      NoBeginInGap("", more, t, wordTable);
      NothingBegins(wordTable);
      assert "" + (more + t) == more + t;
    }
  }

  lemma NoBeginInName(n: Name, wordTable: char -> bool)
    requires IsImport(n, wordTable)
    ensures NoBegin(n.Shown(), wordTable)
  {
    forall k: nat
      ensures !WordAt(n.text, k, "begin", wordTable)
    {
      assert !(k < |n.text| && BeginStands(n.text, k, wordTable));
    }
    if n.Quoted? {
      NothingBegins(wordTable);
      BeginSplits("", '"', n.text, wordTable);
      BeginSplits("\"" + n.text, '"', "", wordTable);
      assert "" + ['"'] + n.text == "\"" + n.text && "\"" + n.text + ['"'] + "" == "\"" + n.text + "\"";
    }
  }

  lemma {:induction false} NoBeginInItems(items: seq<Item>, wordTable: char -> bool)
    requires ItemsOk(items, wordTable) && forall c | IsSpace(c) :: !wordTable(c)
    ensures NoBegin(ItemsText(items), wordTable)
  {
    hide NoBegin, IsImport, IsGap;
    if items == [] {
      NothingBegins(wordTable);
    } else {
      NoBeginInItems(items[1..], wordTable);
      NoBeginInName(items[0].name, wordTable);
      NoBeginInGap(items[0].name.Shown(), items[0].gap, ItemsText(items[1..]), wordTable);
    }
  }

  lemma WordStands(t: string, end: string, wordTable: char -> bool)
    requires t != "" && IsSpace(t[|t| - 1]) && !wordTable(t[|t| - 1])
    requires end != "" ==> IsBoundary(end[0], wordTable)
    ensures WordAt(t + ("begin" + end), |t|, "begin", wordTable)
  {
    var x := t + ("begin" + end);
    assert x[|t|..|t| + 5] == "begin" && x[|t| - 1] == t[|t| - 1];
    assert end != "" ==> x[|t| + 5] == end[0];
  }

  lemma BeginIsRead(t: string, end: string, wordTable: char -> bool)
    requires t != "" && IsSpace(t[|t| - 1]) && NoBegin(t, wordTable) && forall c | IsSpace(c) :: !wordTable(c)
    requires end != "" ==> IsBoundary(end[0], wordTable)
    ensures FindWord(t + ("begin" + end), 0, "begin", wordTable) == Some(|t|)
  {
    hide WordAt, FindWord;
    var (n, c) := (|t| - 1, t[|t| - 1]);
    var a := t[..n];
    SpaceIsNoWord(c, wordTable);
    assert a + [c] + "" == t && a + [c] + ("begin" + end) == t + ("begin" + end);
    BeginSplits(a, c, "", wordTable);
    var x := t + ("begin" + end);
    forall j: nat | j < |t|
      ensures !WordAt(x, j, "begin", wordTable)
    {
      WordSplit(a, c, "begin" + end, j, "begin", wordTable);
    }
    WordStands(t, end, wordTable);
    FindWordIs(x, 0, "begin", |t|, wordTable);
  }

  lemma NoWordNoBegin(t: string, wordTable: char -> bool)
    requires NoBegin(t, wordTable)
    ensures FindWord(t, 0, "begin", wordTable) == None
  {
    hide WordAt;
    var _ := FindWord(t, 0, "begin", wordTable);
  }

  // ----- the imports ---------------------------------------------------------------------------

  lemma {:induction false} GapHasNoTokens(gap: string, t: string)
    requires AllSpace(gap)
    ensures Tokens(gap + t, 0) == Tokens(t, 0)
  {
    if gap == "" {
      assert gap + t == t;
    } else {
      var x := gap + t;
      assert x[0] == gap[0];
      assert x == [gap[0]] + (gap[1..] + t);
      GapHasNoTokens(gap[1..], t);
      TokensShift([gap[0]], gap[1..] + t, 0);
      assert TokenAt(x, 0) == (None, 1);
    }
  }

  lemma NameIsToken(n: Name, t: string)
    requires IsImportName(n) && (t == "" || IsSpace(t[0]))
    ensures Tokens(n.Shown() + t, 0) == [n.text] + Tokens(t, 0)
  {
    if n.Quoted? {
      TokensQuoted(n.text, t);
    } else {
      var x := n.text + t;
      SpanFront(n.text, t, IsImportChar);
      assert x[0] == n.text[0] && x[0..|n.text|] == n.text;
      assert TokenAt(x, 0) == (Some(n.text), |n.text|);
      TokensShift(n.text, t, 0);
    }
  }

  lemma ImportIsName(n: Name, wordTable: char -> bool)
    requires IsImport(n, wordTable)
    ensures IsImportName(n) && n.text != "" && n.text != "begin"
  {
    if n.text == "begin" {
      assert BeginStands(n.text, 0, wordTable);
    }
  }

  lemma NoTokens()
    ensures Tokens("", 0) == []
  {
  }

  lemma {:induction false} ItemsAreTokens(items: seq<Item>, wordTable: char -> bool)
    requires ItemsOk(items, wordTable)
    ensures Tokens(ItemsText(items), 0) == TextsOf(items)
  {
    hide Tokens, IsImport;
    if items == [] {
      NoTokens();
    } else {
      var (n, gap, rest) := (items[0].name, items[0].gap, ItemsText(items[1..]));
      ItemsAreTokens(items[1..], wordTable);
      ImportIsName(n, wordTable);
      NameIsToken(n, gap + rest);
      GapHasNoTokens(gap, rest);
    }
  }

  lemma {:induction false} HeaderWordsAreDropped(items: seq<Item>, wordTable: char -> bool)
    requires ItemsOk(items, wordTable)
    ensures DropNoise(TextsOf(items)) == NamesOf(items)
  {
    hide IsImport;
    if items != [] {
      ImportIsName(items[0].name, wordTable);
      HeaderWordsAreDropped(items[1..], wordTable);
      assert ([items[0].name.text] + TextsOf(items[1..]))[1..] == TextsOf(items[1..]);
    }
  }

  lemma {:induction false} ItemsEndInGap(items: seq<Item>, wordTable: char -> bool)
    requires ItemsOk(items, wordTable) && items != []
    ensures var t := ItemsText(items); t != "" && IsSpace(t[|t| - 1])
  {
    hide IsImport;
    var t := ItemsText(items);
    assert items[0].gap != "";
    if |items| > 1 {
      ItemsEndInGap(items[1..], wordTable);
    }
  }

  lemma RawImports(gap: string, items: seq<Item>, wordTable: char -> bool)
    requires IsGap(gap) && ItemsOk(items, wordTable) && forall c | IsSpace(c) :: !wordTable(c)
    ensures var t := gap + ItemsText(items);
      && NoBegin(t, wordTable) && t != "" && IsSpace(t[|t| - 1])
      && DropNoise(Tokens(t, 0)) == NamesOf(items)
  {
    hide NoBegin, IsImport, Tokens, IsSpace;
    var t := gap + ItemsText(items);
    NoBeginInItems(items, wordTable);
    NothingBegins(wordTable);
    NoBeginInGap("", gap, ItemsText(items), wordTable);
    assert "" + t == t;
    GapHasNoTokens(gap, ItemsText(items));
    ItemsAreTokens(items, wordTable);
    HeaderWordsAreDropped(items, wordTable);
    if items != [] {
      ItemsEndInGap(items, wordTable);
    }
  }

  lemma ImportsAreRead(h: Written, wordTable: char -> bool)
    requires IsWritten(h, wordTable)
    ensures ImportsOf(Behind(h), wordTable) == NamesOf(h.items)
  {
    hide NoBegin, IsImport, Tokens, IsSpace, AllSpace, FindWord, IsBoundary, IsTheoryName, ItemsOk, ItemsText, NamesOf;
    var t := h.gap'' + ItemsText(h.items);
    RawImports(h.gap'', h.items, wordTable);
    if h.end.Some? {
      BeginIsRead(t, h.end.value, wordTable);
      assert Behind(h) == t + ("begin" + h.end.value);
      assert Behind(h)[..|t|] == t;
    } else {
      NoWordNoBegin(t, wordTable);
      assert Behind(h) == t;
    }
  }

  lemma BehindStarts(h: Written)
    requires IsGap(h.gap'') && IsGap(h.gap')
    ensures Behind(h) != "" && IsSpace(Behind(h)[0]) && BehindName(h) != "" && IsSpace(BehindName(h)[0])
  {
  }

  lemma NameThenRest(indent: string, gap: string, n: Name, t: string, wordTable: char -> bool)
    requires var x := indent + ("theory" + (gap + (n.Shown() + t)));
      FindTheory(x, 0) == Some((n.text, |indent| + 6 + |gap| + |n.Shown()|))
    ensures var x := indent + ("theory" + (gap + (n.Shown() + t)));
      ParseStripped(x, wordTable) == Header(Some(n.text), ImportsAfter(t, wordTable))
  {
    hide FindTheory, ImportsAfter, Name.Shown;
    var x := indent + ("theory" + (gap + (n.Shown() + t)));
    assert x[|indent| + 6 + |gap| + |n.Shown()|..] == t;
  }

  lemma RestIsRead(h: Written, wordTable: char -> bool)
    requires IsWritten(h, wordTable)
    ensures ImportsAfter(BehindName(h), wordTable) == NamesOf(h.items)
  {
    hide IsImport, IsTheoryName, ImportsOf, Behind, ItemsText, FindWord, ItemsOk, IsBoundary, IsSpace;
    BehindStarts(h);
    ImportsIsFound(h.gap', Behind(h), wordTable);
    assert BehindName(h)[|h.gap'| + 7..] == Behind(h);
    ImportsAreRead(h, wordTable);
  }

  /** A written header is read as its name and its imports, however the words are spaced. */
  lemma HeaderIsRead(h: Written, wordTable: char -> bool)
    requires IsWritten(h, wordTable)
    ensures ParseStripped(TextOf(h), wordTable) == Header(Some(h.name.text), NamesOf(h.items))
  {
    hide IsImport, IsTheoryName, FindTheory, ParseStripped, ImportsAfter, BehindName, ItemsOk, IsBoundary, Name.Shown;
    var t := BehindName(h);
    BehindStarts(h);
    ParseAfterBlankLines(h.lines, h.indent + ("theory" + (h.gap + (h.name.Shown() + t))), wordTable);
    LineIsRead(h.indent, h.gap, h.name, t);
    NameThenRest(h.indent, h.gap, h.name, t, wordTable);
    RestIsRead(h, wordTable);
  }

  // ----- comments between the words ------------------------------------------------------------

  lemma {:induction false} StripBehind(p: string, t: string, i: nat)
    requires NoOpening(p) && i <= |p| && (p != "" && p[|p| - 1] == '(' && t != "" ==> t[0] != '*')
    ensures StripFrom(p + t, i, 0) == p[i..] + StripComments(t)
    decreases |p| - i
  {
    if i == |p| {
      StripShift(p, t, 0, 0);
    } else {
      SuffixCons(p, i);
      assert !StartsWith(p, i, "(*");
      if i + 2 <= |p| {
        StartsWithPrefix(p, t, i, "(*");
      } else if StartsWith(p + t, i, "(*") {
        assert (p + t)[i..i + 2][0] == p[i] && (p + t)[i..i + 2][1] == t[0];
      }
      StripBehind(p, t, i + 1);
    }
  }

  lemma EndSteps(text: string, k: nat, depth: nat)
    requires k < |text| && depth > 0
    ensures !G.DelimiterAt(Some(G.Comment), text[k..]) ==>
              CommentEnd(text, k, depth) == CommentEnd(text, k + 1, depth)
    ensures G.Opening(G.Comment) <= text[k..] ==>
              k + 2 <= |text| && CommentEnd(text, k, depth) == CommentEnd(text, k + 2, depth + 1)
    ensures G.Closing(G.Comment) <= text[k..] ==>
              k + 2 <= |text| && CommentEnd(text, k, depth) == CommentEnd(text, k + 2, depth - 1)
  {
    G.StartsIsPrefix(text, k, "(*");
    G.StartsIsPrefix(text, k, "*)");
    assert "*)" <= text[k..] ==> text[k..][0] == '*';
  }

  lemma TwoLong()
    ensures |G.Opening(G.Comment)| == 2 && |G.Closing(G.Comment)| == 2
  {
  }

  lemma {:induction false} EndBehind(text: string, i: nat, n: nat, d: G.Doc, depth: nat)
    requires i <= n <= |text| && text[i..n] == G.Print(d) && G.Fits(d, Some(G.Comment), text[n..]) && depth > 0
    ensures CommentEnd(text, i, depth) == CommentEnd(text, n, depth)
    decreases d
  {
    hide CommentEnd, G.DelimiterAt, G.Opening, G.Closing, G.LitsOk, G.PrintChars;
    match d
    case Empty =>
    case Quoted(_, _) =>
    case Plain(init, c) =>
      G.Parts(text, i, n, G.Print(init), [c]);
      EndBehind(text, i, n - 1, init, depth);
      EndSteps(text, n - 1, depth);
    case Nested(init, kind, body) =>
      var j := i + |G.Print(init)|;
      G.Parts(text, i, n, G.Print(init), G.Opening(kind) + G.Print(body) + G.Closing(kind));
      EndBehind(text, i, j, init, depth);
      G.NestedParts(text, j, n, kind, body);
      TwoLong();
      EndSteps(text, j, depth);
      EndBehind(text, j + 2, n - 2, body, depth + 1);
      EndSteps(text, n - 2, depth + 1);
  }

  /** What the grammar of the lexer calls a comment, with the comments nested in it, is one for the stripper. */
  lemma GrammarComments(body: G.Doc)
    requires G.Fits(body, Some(G.Comment), "*)")
    ensures IsComment("(*" + G.Print(body) + "*)")
  {
    var c := "(*" + G.Print(body) + "*)";
    var n := |c|;
    assert c[..] == c && c[0..n] == c && c[n - 2..] == "*)";
    G.NestedParts(c, 0, n, G.Comment, body);
    assert c[0..2] == "(*";
    EndBehind(c, 2, n - 2, body, 1);
    G.StartsIsPrefix(c, n - 2, "*)");
    G.StartsIsPrefix(c, n - 2, "(*");
  }

  /** A comment goes away wherever it stands, and leaves its line feeds. */
  lemma CommentGoes(p: string, c: string, t: string)
    requires NoOpening(p) && IsComment(c)
    ensures StripComments(p + (c + t)) == p + (Newlines(c, 2) + StripComments(t))
  {
    StripBehind(p, c + t, 0);
    StartsWithPrefix(c, t, 0, "(*");
    StripInside(c, t, 2, 1);
    assert c[0] == c[0..2][0] == '(';
  }

  /** With comments anywhere: if the text is a written header once they are gone, it is read as that header. */
  lemma CommentedHeaderIsRead(text: string, h: Written, wordTable: char -> bool)
    requires StripComments(text) == TextOf(h) && IsWritten(h, wordTable)
    ensures ParseHeader(text, wordTable) == Header(Some(h.name.text), NamesOf(h.items))
  {
    HeaderIsRead(h, wordTable);
  }

  /** And a written header without comments is such a text. */
  lemma PlainHeaderIsRead(h: Written, wordTable: char -> bool)
    requires IsWritten(h, wordTable) && NoOpening(TextOf(h))
    ensures ParseHeader(TextOf(h), wordTable) == Header(Some(h.name.text), NamesOf(h.items))
  {
    StripPlain(TextOf(h), 0);
    assert TextOf(h)[0..] == TextOf(h);
    HeaderIsRead(h, wordTable);
  }
}

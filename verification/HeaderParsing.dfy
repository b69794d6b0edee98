/** Theory headers: the comment stripper and parser of server/app/services/theory_parsing.py and the header
    printer of server/app/services/session.py. */
module HeaderParsing {
  import opened Text

  // ----- comments ------------------------------------------------------------------------------

  /** What `strip_theory_comments` still appends when it is at `i`, `depth` comments deep. */
  function StripFrom(text: string, i: nat, depth: nat): string
    requires i <= |text|
    decreases |text| - i
  {
    if i == |text| then ""
    else if depth == 0 then
      if StartsWith(text, i, "(*") then StripFrom(text, i + 2, 1)
      else [text[i]] + StripFrom(text, i + 1, 0)
    else if StartsWith(text, i, "(*") then StripFrom(text, i + 2, depth + 1)
    else if StartsWith(text, i, "*)") then StripFrom(text, i + 2, depth - 1)
    else if text[i] == '\n' then "\n" + StripFrom(text, i + 1, depth)
    else StripFrom(text, i + 1, depth)
  }

  function StripComments(text: string): string {
    StripFrom(text, 0, 0)
  }

  method StripTheoryComments(text: string) returns (out: string)
    ensures out == StripComments(text)
  {
    out := "";
    var depth: nat := 0;
    var i := 0;
    var n := |text|;
    while i < n
      invariant 0 <= i <= n
      invariant out + StripFrom(text, i, depth) == StripComments(text)
    {
      if depth == 0 {
        if StartsWith(text, i, "(*") {
          depth := 1;
          i := i + 2;
          continue;
        }
        out := out + [text[i]];
        i := i + 1;
        continue;
      }
      if StartsWith(text, i, "(*") {
        depth := depth + 1;
        i := i + 2;
        continue;
      }
      if StartsWith(text, i, "*)") {
        depth := depth - 1;
        i := i + 2;
        continue;
      }
      if text[i] == '\n' {
        out := out + "\n";
      }
      i := i + 1;
    }
  }

  // ----- the regular expressions of the header -------------------------------------------------

  predicate IsNameChar(c: char) {
    IsAlnum(c) || c == '_' || c == '\'' || c == '.' || c == '-'
  }

  predicate IsImportStart(c: char) {
    IsLetter(c) || c == '_'
  }

  predicate IsImportChar(c: char) {
    IsAlnum(c) || c == '_' || c == '.' || c == '/' || c == '-'
  }

  predicate IsTab(c: char) {
    c == ' ' || c == '\t'
  }

  predicate NotQuote(c: char) {
    c != '"'
  }

  predicate IsQuotable(c: char) {
    c != '"' && c != '\n'
  }

  /** The theory name at `j`, quoted or bare, and the end of the match. */
  function NameAt(s: string, j: nat): Option<(string, nat)>
    requires j < |s|
  {
    if s[j] == '"' then
      var k := Span(s, j + 1, IsQuotable);
      if k > j + 1 && k < |s| && s[k] == '"' then Some((s[j + 1..k], k + 1)) else None
    else
      var k := Span(s, j, IsNameChar);
      if k > j then Some((s[j..k], k)) else None
  }

  /** `\s+` and the name, from `i` on. */
  function NameAfter(s: string, i: nat): Option<(string, nat)>
    requires i <= |s|
  {
    var j := Span(s, i, IsSpace);
    if j == i || j == |s| then None else NameAt(s, j)
  }

  function NameAfterKeyword(s: string, i: nat, kw: string): Option<(string, nat)> {
    if StartsWith(s, i, kw) then NameAfter(s, i + |kw|) else None
  }

  /** `[ \t]*theory\s+(?:"([^"\n]+)"|([A-Za-z0-9_'.-]+))` matched at `p`: the name and the end of the match. */
  function TheoryAt(s: string, p: nat): Option<(string, nat)>
    requires p <= |s|
  {
    var i := Span(s, p, IsTab);
    NameAfterKeyword(s, i, "theory")
  }

  /** The first match of the theory line at a line start from `p` on. */
  function FindTheory(s: string, p: nat): (r: Option<(string, nat)>)
    requires p <= |s|
    ensures r.Some? ==> r.value.1 <= |s|
    decreases |s| - p
  {
    if (p == 0 || s[p - 1] == '\n') && TheoryAt(s, p).Some? then TheoryAt(s, p)
    else if p == |s| then None
    else FindTheory(s, p + 1)
  }

  /** `\bw\b` matches at `k`, for a `w` that begins and ends with a word character. */
  predicate WordAt(s: string, k: nat, w: string, wordTable: char -> bool) {
    && StartsWith(s, k, w)
    && (k == 0 || !IsWord(s[k - 1], wordTable))
    && (k + |w| == |s| || !IsWord(s[k + |w|], wordTable))
  }

  /** The first whole word `w` from `i` on. */
  function FindWord(s: string, i: nat, w: string, wordTable: char -> bool): (r: Option<nat>)
    requires i <= |s|
    ensures r.Some? ==> i <= r.value && WordAt(s, r.value, w, wordTable)
    ensures forall k | i <= k < (if r.Some? then r.value else |s| + 1) :: !WordAt(s, k, w, wordTable)
    decreases |s| - i
  {
    if WordAt(s, i, w, wordTable) then Some(i)
    else if i == |s| then None
    else FindWord(s, i + 1, w, wordTable)
  }

  /** What `"[^"]+"|[A-Za-z_][A-Za-z0-9_./-]*` makes of position `i`: a token stripped of its quotes, if one starts
      there, and where the scan goes on. */
  function TokenAt(s: string, i: nat): (r: (Option<string>, nat))
    requires i < |s|
    ensures i < r.1 <= |s|
  {
    if s[i] == '"' then
      var k := Span(s, i + 1, NotQuote);
      if k > i + 1 && k < |s| then (Some(s[i + 1..k]), k + 1) else (None, i + 1)
    else if IsImportStart(s[i]) then
      var k := Span(s, i, IsImportChar);
      (Some(s[i..k]), k)
    else (None, i + 1)
  }

  /** `findall` from `i` on. */
  function Tokens(s: string, i: nat): seq<string>
    requires i <= |s|
    decreases |s| - i
  {
    if i == |s| then []
    else
      var (t, j) := TokenAt(s, i);
      if t.Some? then [t.value] + Tokens(s, j) else Tokens(s, j)
  }

  predicate IsNoise(s: string) {
    s == "imports" || s == "begin" || s == "theory" || s == "keywords"
  }

  function DropNoise(tokens: seq<string>): seq<string> {
    if tokens == [] then []
    else if tokens[0] != "" && !IsNoise(tokens[0]) then [tokens[0]] + DropNoise(tokens[1..])
    else DropNoise(tokens[1..])
  }

  datatype Header = Header(name: Option<string>, imports: seq<string>)

  function ImportsOf(after: string, wordTable: char -> bool): seq<string> {
    var bm := FindWord(after, 0, "begin", wordTable);
    DropNoise(Tokens(if bm.Some? then after[..bm.value] else after, 0))
  }

  /** The imports of a header, given what follows the theory name. */
  function ImportsAfter(rest: string, wordTable: char -> bool): seq<string> {
    match FindWord(rest, 0, "imports", wordTable)
    case None => []
    case Some(im) => ImportsOf(rest[im + 7..], wordTable)
  }

  function HeaderFrom(s: string, m: Option<(string, nat)>, wordTable: char -> bool): Header
    requires m.Some? ==> m.value.1 <= |s|
  {
    match m
    case None => Header(None, [])
    case Some((name, end)) => Header(Some(name), ImportsAfter(s[end..], wordTable))
  }

  /** The part of `parse_theory_header` after the comments are gone. */
  function ParseStripped(stripped: string, wordTable: char -> bool): Header {
    HeaderFrom(stripped, FindTheory(stripped, 0), wordTable)
  }

  function ParseHeader(text: string, wordTable: char -> bool): Header {
    ParseStripped(StripComments(text), wordTable)
  }

  // ----- the printer ---------------------------------------------------------------------------

  /** `re.fullmatch(r"[A-Za-z][\w']*", n)` */
  predicate IsBare(n: string, wordTable: char -> bool) {
    n != "" && IsLetter(n[0]) && forall k | 0 < k < |n| :: IsWord(n[k], wordTable) || n[k] == '\''
  }

  function Quote(n: string, wordTable: char -> bool): string {
    if IsBare(n, wordTable) then n else "\"" + n + "\""
  }

  function QuoteAll(names: seq<string>, wordTable: char -> bool): (r: seq<string>)
    ensures |r| == |names|
  {
    if names == [] then [] else [Quote(names[0], wordTable)] + QuoteAll(names[1..], wordTable)
  }

  function NonEmpty(names: seq<string>): seq<string> {
    if names == [] then [] else if names[0] != "" then [names[0]] + NonEmpty(names[1..]) else NonEmpty(names[1..])
  }

  /** The imports that get printed. */
  function Effective(imports: seq<string>): seq<string> {
    if NonEmpty(imports) == [] then ["Main"] else NonEmpty(imports)
  }

  /** `_build_theory_header` */
  function BuildHeader(name: string, imports: seq<string>, wordTable: char -> bool): string {
    "theory " + name + " imports " + Join(QuoteAll(Effective(imports), wordTable), " ") + " begin"
  }

  // ----- a leading comment does not change the parse -------------------------------------------

  /** The index just after the `*)` that closes the comment open at `i`, `depth` deep. */
  function CommentEnd(text: string, i: nat, depth: nat): Option<nat>
    requires i <= |text|
    decreases |text| - i
  {
    if depth == 0 then Some(i)
    else if i == |text| then None
    else if StartsWith(text, i, "(*") then CommentEnd(text, i + 2, depth + 1)
    else if StartsWith(text, i, "*)") then CommentEnd(text, i + 2, depth - 1)
    else CommentEnd(text, i + 1, depth)
  }

  /** One balanced comment, with the comments nested in it. */
  predicate IsComment(c: string) {
    StartsWith(c, 0, "(*") && CommentEnd(c, 2, 1) == Some(|c|)
  }

  /** The newlines of `s` from `i` on. */
  function Newlines(s: string, i: nat): string
    requires i <= |s|
    decreases |s| - i
  {
    if i == |s| then ""
    else if s[i] == '\n' then "\n" + Newlines(s, i + 1)
    else Newlines(s, i + 1)
  }

  lemma NewlinesOfToken(s: string, i: nat, t: string)
    requires |t| == 2 && StartsWith(s, i, t) && t[0] != '\n' && t[1] != '\n'
    ensures Newlines(s, i) == Newlines(s, i + 2)
  {
    assert s[i..i + 2][0] == s[i] && s[i..i + 2][1] == s[i + 1];
  }

  lemma StartsWithPrefix(c: string, t: string, i: nat, tok: string)
    requires i + |tok| <= |c|
    ensures StartsWith(c + t, i, tok) <==> StartsWith(c, i, tok)
  {
    assert (c + t)[i..i + |tok|] == c[i..i + |tok|];
  }

  lemma TokenLength(s: string, i: nat, t: string)
    ensures StartsWith(s, i, t) ==> i + |t| <= |s|
  {
  }

  lemma {:induction false} StripShift(p: string, t: string, i: nat, depth: nat)
    requires i <= |t|
    ensures StripFrom(p + t, |p| + i, depth) == StripFrom(t, i, depth)
    decreases |t| - i
  {
    hide StartsWith;
    if i < |t| {
      TokenLength(t, i, "(*");
      TokenLength(t, i, "*)");
      StartsWithShift(p, t, i, "(*");
      StartsWithShift(p, t, i, "*)");
      if StartsWith(t, i, "(*") {
        StripShift(p, t, i + 2, depth + 1);
      } else if depth > 0 && StartsWith(t, i, "*)") {
        StripShift(p, t, i + 2, depth - 1);
      } else {
        StripShift(p, t, i + 1, depth);
      }
    }
  }

  lemma {:induction false} StripInside(c: string, t: string, i: nat, depth: nat)
    requires i <= |c| && CommentEnd(c, i, depth) == Some(|c|)
    ensures StripFrom(c + t, i, depth) == Newlines(c, i) + StripFrom(t, 0, 0)
    decreases |c| - i
  {
    if depth == 0 {
      StripShift(c, t, 0, 0);
    } else {
      assert i + 2 <= |c|;
      StartsWithPrefix(c, t, i, "(*");
      StartsWithPrefix(c, t, i, "*)");
      if StartsWith(c, i, "(*") {
        StripInside(c, t, i + 2, depth + 1);
        NewlinesOfToken(c, i, "(*");
      } else if StartsWith(c, i, "*)") {
        StripInside(c, t, i + 2, depth - 1);
        NewlinesOfToken(c, i, "*)");
      } else {
        StripInside(c, t, i + 1, depth);
        Assoc("\n", Newlines(c, i + 1), StripFrom(t, 0, 0));
      }
    }
  }

  function ShiftMatch(m: Option<(string, nat)>, n: nat): Option<(string, nat)> {
    match m case None => None case Some((name, end)) => Some((name, n + end))
  }

  lemma NameAtShift(p: string, s: string, j: nat)
    requires j < |s|
    ensures NameAt(p + s, |p| + j) == ShiftMatch(NameAt(s, j), |p|)
  {
    hide Span;
    SpanShift(p, s, j + 1, IsQuotable);
    SpanShift(p, s, j, IsNameChar);
    SliceShift(p, s, j + 1, Span(s, j + 1, IsQuotable));
    SliceShift(p, s, j, Span(s, j, IsNameChar));
  }

  lemma NameAfterShift(p: string, s: string, i: nat)
    requires i <= |s|
    ensures NameAfter(p + s, |p| + i) == ShiftMatch(NameAfter(s, i), |p|)
  {
    SpanShift(p, s, i, IsSpace);
    var j := Span(s, i, IsSpace);
    if j < |s| {
      NameAtShift(p, s, j);
    }
  }

  lemma NameAfterKeywordShift(p: string, s: string, i: nat, kw: string)
    ensures NameAfterKeyword(p + s, |p| + i, kw) == ShiftMatch(NameAfterKeyword(s, i, kw), |p|)
  {
    StartsWithShift(p, s, i, kw);
    if StartsWith(s, i, kw) {
      NameAfterShift(p, s, i + |kw|);
    }
  }

  lemma TheoryAtShift(p: string, s: string, i: nat)
    requires i <= |s|
    ensures TheoryAt(p + s, |p| + i) == ShiftMatch(TheoryAt(s, i), |p|)
  {
    SpanShift(p, s, i, IsTab);
    NameAfterKeywordShift(p, s, Span(s, i, IsTab), "theory");
  }

  /** Behind complete lines the search goes as it would without them. */
  lemma {:induction false} FindTheoryShift(p: string, s: string, i: nat)
    requires i <= |s| && (p == "" || p[|p| - 1] == '\n')
    ensures FindTheory(p + s, |p| + i) == ShiftMatch(FindTheory(s, i), |p|)
    decreases |s| - i
  {
    hide TheoryAt;
    TheoryAtShift(p, s, i);
    assert |p| + i > 0 ==> (p + s)[|p| + i - 1] == if i > 0 then s[i - 1] else p[|p| - 1];
    if !((i == 0 || s[i - 1] == '\n') && TheoryAt(s, i).Some?) && i < |s| {
      FindTheoryShift(p, s, i + 1);
    }
  }

  /** Blank lines hold no theory line. */
  lemma {:induction false} FindTheorySkips(p: string, s: string, i: nat)
    requires AllSpace(p) && (p == "" || p[|p| - 1] == '\n') && i <= |p|
    ensures FindTheory(p + s, i) == FindTheory(p + s, |p|)
    decreases |p| - i
  {
    if i < |p| {
      var x := p + s;
      var k := Span(x, i, IsTab);
      assert k < |p| by {
        assert x[|p| - 1] == '\n';
      }
      StartsFirst(x, k, "theory");
      assert IsSpace(p[k]) && x[k] == p[k];
      assert TheoryAt(x, i) == None;
      FindTheorySkips(p, s, i + 1);
    }
  }

  lemma HeaderFromShift(p: string, t: string, m: Option<(string, nat)>, wordTable: char -> bool)
    requires m.Some? ==> m.value.1 <= |t|
    ensures HeaderFrom(p + t, ShiftMatch(m, |p|), wordTable) == HeaderFrom(t, m, wordTable)
  {
    hide ImportsAfter;
    if m.Some? {
      assert (p + t)[|p| + m.value.1..] == t[m.value.1..];
    }
  }

  /** Blank lines in front do not change the parse. */
  lemma ParseAfterBlankLines(p: string, t: string, wordTable: char -> bool)
    requires AllSpace(p) && (p == "" || p[|p| - 1] == '\n')
    ensures ParseStripped(p + t, wordTable) == ParseStripped(t, wordTable)
  {
    hide FindTheory, HeaderFrom;
    FindTheorySkips(p, t, 0);
    FindTheoryShift(p, t, 0);
    HeaderFromShift(p, t, FindTheory(t, 0), wordTable);
  }

  lemma {:induction false} NewlinesAreBlankLines(c: string, i: nat)
    requires i <= |c|
    ensures var n := Newlines(c, i); AllSpace(n) && (n == "" || n[|n| - 1] == '\n')
    decreases |c| - i
  {
    if i < |c| {
      NewlinesAreBlankLines(c, i + 1);
    }
  }

  /** A balanced comment in front of any text leaves the parse as it was. */
  lemma LeadingCommentIsIgnored(c: string, text: string, wordTable: char -> bool)
    requires IsComment(c)
    ensures ParseHeader(c + text, wordTable) == ParseHeader(text, wordTable)
  {
    StartsWithPrefix(c, text, 0, "(*");
    StripInside(c, text, 2, 1);
    NewlinesAreBlankLines(c, 2);
    ParseAfterBlankLines(Newlines(c, 2), StripComments(text), wordTable);
  }

  // ----- the lines stay where they are ---------------------------------------------------------

  /** `a` is `b` with some characters left out. */
  predicate IsSubsequence(a: string, b: string)
    decreases |b|
  {
    || a == ""
    || (b != "" && (IsSubsequence(a, b[1..]) || (a[0] == b[0] && IsSubsequence(a[1..], b[1..]))))
  }

  predicate LinesThinned(out: seq<string>, lines: seq<string>)
    decreases |lines|
  {
    if out == [] || lines == [] then out == [] && lines == []
    else IsSubsequence(out[0], lines[0]) && LinesThinned(out[1..], lines[1..])
  }

  lemma SplitCons(c: char, s: string)
    ensures SplitLines([c] + s) ==
            if c == '\n' then [""] + SplitLines(s) else [[c] + SplitLines(s)[0]] + SplitLines(s)[1..]
  {
    var k := IndexOf(s, '\n');
    var x := [c] + s;
    assert x[1..] == s;
    if c == '\n' {
      assert x[..0] == "";
    } else {
      assert IndexOf(x, '\n') == k + 1;
      assert x[..k + 1] == [c] + s[..k];
      if k < |s| {
        assert x[k + 2..] == s[k + 1..];
      } else {
        assert s[..k] == s;
      }
    }
  }

  lemma ThinnedDrop(c: char, out: string, s: string)
    requires LinesThinned(SplitLines(out), SplitLines(s)) && c != '\n'
    ensures LinesThinned(SplitLines(out), SplitLines([c] + s))
  {
    SplitCons(c, s);
    var b := SplitLines(s)[0];
    assert ([c] + b)[1..] == b;
  }

  lemma ThinnedKeep(c: char, out: string, s: string)
    requires LinesThinned(SplitLines(out), SplitLines(s))
    ensures LinesThinned(SplitLines([c] + out), SplitLines([c] + s))
  {
    SplitCons(c, s);
    SplitCons(c, out);
    var a, b := SplitLines(out)[0], SplitLines(s)[0];
    assert ([c] + a)[1..] == a && ([c] + b)[1..] == b;
  }

  /** Whatever relates the empty texts, survives keeping a character on both sides and survives dropping a
      character other than a newline, relates the stripped text to the text. */
  lemma {:induction false} StripRelates(r: (string, string) -> bool, text: string, i: nat, depth: nat)
    requires r("", "")
    requires forall c, out, s :: r(out, s) ==> r([c] + out, [c] + s)
    requires forall c, out, s :: c != '\n' && r(out, s) ==> r(out, [c] + s)
    requires i <= |text|
    ensures r(StripFrom(text, i, depth), text[i..])
    decreases |text| - i
  {
    if i < |text| {
      SuffixCons(text, i);
      if StartsWith(text, i, "(*") || (depth > 0 && StartsWith(text, i, "*)")) {
        var d := if StartsWith(text, i, "(*") then depth + 1 else depth - 1;
        assert text[i..i + 2][0] == text[i] && text[i..i + 2][1] == text[i + 1];
        SuffixCons(text, i + 1);
        StripRelates(r, text, i + 2, d);
        assert r(StripFrom(text, i + 2, d), text[i + 1..]);
      } else {
        StripRelates(r, text, i + 1, depth);
        assert text[i] == '\n' ==> [text[i]] == "\n";
      }
    }
  }

  /** Stripping keeps the number of lines, and each line only loses characters. */
  lemma LineNumbersDoNotShift(text: string)
    ensures LinesThinned(SplitLines(StripComments(text)), SplitLines(text))
  {
    var r := (out: string, s: string) => LinesThinned(SplitLines(out), SplitLines(s));
    forall c, out, s | r(out, s)
      ensures r([c] + out, [c] + s)
    {
      ThinnedKeep(c, out, s);
    }
    forall c: char, out, s | c != '\n' && r(out, s)
      ensures r(out, [c] + s)
    {
      ThinnedDrop(c, out, s);
    }
    assert SplitLines("") == [""] && IsSubsequence("", "") && LinesThinned([""][1..], [""][1..]);
    assert r("", "");
    StripRelates(r, text, 0, 0);
    assert text[0..] == text;
  }
}

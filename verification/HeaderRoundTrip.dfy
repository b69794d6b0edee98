/** When the header printed by server/app/services/session.py is read back by
    server/app/services/theory_parsing.py as it was given: an exact condition on the import names. */
module HeaderRoundTrip {
  import opened Text
  import opened HeaderParsing

  predicate All(s: string, p: char -> bool) {
    forall k | 0 <= k < |s| :: p(s[k])
  }

  ghost predicate NoBegin(s: string, wordTable: char -> bool) {
    forall k: nat :: !WordAt(s, k, "begin", wordTable)
  }

  ghost predicate NoOpening(s: string) {
    forall k: nat :: !StartsWith(s, k, "(*")
  }

  /** What the pattern for imports asks of a name: it is no header word, it has no quote and no whole word `begin` in
      it, and if the printer leaves it bare it is made of the characters of bare tokens. */
  ghost predicate ReadsBack(n: string, wordTable: char -> bool) {
    && !IsNoise(n) && NoBegin(n, wordTable) && '"' !in n
    && (IsBare(n, wordTable) ==> All(n, IsImportChar))
  }

  /** What a caller has to check of an import name: besides, it opens no comment. */
  ghost predicate Survives(n: string, wordTable: char -> bool) {
    ReadsBack(n, wordTable) && NoOpening(n)
  }

  // ----- stripping -----------------------------------------------------------------------------

  lemma {:induction false} StripPlain(text: string, i: nat)
    requires i <= |text| && NoOpening(text)
    ensures StripFrom(text, i, 0) == text[i..]
    decreases |text| - i
  {
    if i < |text| {
      assert !StartsWith(text, i, "(*");
      StripPlain(text, i + 1);
      SuffixCons(text, i);
    }
  }

  lemma NameAfterBlank(pre: string, name: string, rest: string)
    requires name != "" && All(name, IsNameChar) && rest != "" && !IsNameChar(rest[0])
    ensures NameAfter(pre + " " + name + rest, |pre|) == Some((name, |pre| + 1 + |name|))
  {
    var x := pre + " " + name + rest;
    var j := |pre| + 1;
    assert x[|pre|] == ' ' && x[j] == name[0] && x[j + |name|] == rest[0];
    SpanIs(x, |pre|, j, IsSpace);
    forall k | j <= k < j + |name|
      ensures IsNameChar(x[k])
    {
      assert x[k] == name[k - j];
    }
    SpanIs(x, j, j + |name|, IsNameChar);
    assert x[j..j + |name|] == name;
  }

  lemma KeywordAt(kw: string, rest: string)
    ensures StartsWith(kw + rest, 0, kw)
  {
    assert (kw + rest)[0..|kw|] == kw;
  }

  lemma NameIsFound(name: string, rest: string)
    requires name != "" && All(name, IsNameChar) && rest != "" && !IsNameChar(rest[0])
    ensures FindTheory("theory" + " " + name + rest, 0) == Some((name, 7 + |name|))
  {
    var kw := "theory";
    var x := kw + " " + name + rest;
    assert kw[0] == 't' && x[0] == kw[0];
    SpanIs(x, 0, 0, IsTab);
    NameAfterBlank(kw, name, rest);
    KeywordAt(kw, " " + name + rest);
    Assoc(kw + " ", name, rest);
    Assoc(kw, " ", name + rest);
    Assoc(" ", name, rest);
    assert NameAfterKeyword(x, 0, kw) == NameAfter(x, 6);
  }

  // ----- whole words do not cross a separator --------------------------------------------------

  lemma WordSplit(a: string, c: char, b: string, k: nat, w: string, wordTable: char -> bool)
    requires w != "" && c !in w && !IsWord(c, wordTable)
    ensures WordAt(a + [c] + b, k, w, wordTable) <==>
              WordAt(a, k, w, wordTable) || (k > |a| && WordAt(b, k - |a| - 1, w, wordTable))
  {
    var x := a + [c] + b;
    if k + |w| <= |a| {
      assert x[k..k + |w|] == a[k..k + |w|];
    } else if k <= |a| {
      if k + |w| <= |x| {
        assert x[k..k + |w|][|a| - k] == c;
      }
    } else if k + |w| <= |x| {
      assert x[k..k + |w|] == b[k - |a| - 1..k - |a| - 1 + |w|];
    }
  }

  lemma OpeningSplit(a: string, c: char, b: string, k: nat)
    requires c != '(' && c != '*'
    ensures StartsWith(a + [c] + b, k, "(*") <==>
              StartsWith(a, k, "(*") || (k > |a| && StartsWith(b, k - |a| - 1, "(*"))
  {
    var x := a + [c] + b;
    if k + 2 <= |a| {
      assert x[k..k + 2] == a[k..k + 2];
    } else if k <= |a| {
      if k + 2 <= |x| {
        assert x[k..k + 2][|a| - k] == c;
      }
    } else if k + 2 <= |x| {
      assert x[k..k + 2] == b[k - |a| - 1..k - |a| + 1];
    }
  }

  /** Properties of texts that can be looked at part by part where a blank or a quote stands between the parts. */
  ghost predicate Splits(p: string -> bool) {
    p("") && forall a, b, c: char | c == ' ' || c == '"' :: p(a + [c] + b) <==> p(a) && p(b)
  }

  lemma NoBeginSplits(wordTable: char -> bool)
    ensures Splits(s => NoBegin(s, wordTable))
  {
    forall a, b, c: char | c == ' ' || c == '"'
      ensures NoBegin(a + [c] + b, wordTable) <==> NoBegin(a, wordTable) && NoBegin(b, wordTable)
    {
      var x := a + [c] + b;
      if NoBegin(x, wordTable) {
        forall k: nat
          ensures !WordAt(a, k, "begin", wordTable) && !WordAt(b, k, "begin", wordTable)
        {
          WordSplit(a, c, b, k, "begin", wordTable);
          WordSplit(a, c, b, |a| + 1 + k, "begin", wordTable);
        }
      }
      if NoBegin(a, wordTable) && NoBegin(b, wordTable) {
        forall k: nat
          ensures !WordAt(x, k, "begin", wordTable)
        {
          WordSplit(a, c, b, k, "begin", wordTable);
        }
      }
    }
  }

  lemma NoOpeningSplits()
    ensures Splits(NoOpening)
  {
    forall a, b, c: char | c == ' ' || c == '"'
      ensures NoOpening(a + [c] + b) <==> NoOpening(a) && NoOpening(b)
    {
      var x := a + [c] + b;
      if NoOpening(x) {
        forall k: nat
          ensures !StartsWith(a, k, "(*") && !StartsWith(b, k, "(*")
        {
          OpeningSplit(a, c, b, k);
          OpeningSplit(a, c, b, |a| + 1 + k);
        }
      }
      if NoOpening(a) && NoOpening(b) {
        forall k: nat
          ensures !StartsWith(x, k, "(*")
        {
          OpeningSplit(a, c, b, k);
        }
      }
    }
  }

  lemma QuoteSplits(p: string -> bool, n: string, wordTable: char -> bool)
    requires Splits(p)
    ensures p(Quote(n, wordTable)) <==> p(n)
  {
    assert "" + ['"'] + n == "\"" + n;
    assert "\"" + n + ['"'] + "" == "\"" + n + "\"";
  }

  lemma {:induction false} JoinSplits(p: string -> bool, names: seq<string>, wordTable: char -> bool)
    requires Splits(p)
    ensures p(Join(QuoteAll(names, wordTable), " ")) <==> forall n | n in names :: p(n)
  {
    if names != [] {
      QuoteSplits(p, names[0], wordTable);
      JoinSplits(p, names[1..], wordTable);
      assert forall n :: n in names <==> n == names[0] || n in names[1..];
      if |names| > 1 {
        var q, body := Quote(names[0], wordTable), Join(QuoteAll(names[1..], wordTable), " ");
        assert q + [' '] + body == q + " " + body;
      }
    }
  }

  // ----- where the two keywords are found ------------------------------------------------------

  lemma {:induction false} FindWordIs(s: string, i: nat, w: string, k: nat, wordTable: char -> bool)
    requires i <= k <= |s| && WordAt(s, k, w, wordTable)
    requires forall j | i <= j < k :: !WordAt(s, j, w, wordTable)
    ensures FindWord(s, i, w, wordTable) == Some(k)
    decreases k - i
  {
    if i < k {
      FindWordIs(s, i + 1, w, k, wordTable);
    }
  }

  lemma ImportsAreFound(body: string, wordTable: char -> bool)
    ensures ImportsAfter(" imports " + body + " begin", wordTable) == ImportsOf(" " + body + " begin", wordTable)
  {
    var x := " imports " + body + " begin";
    assert x[0] == ' ' && x[8] == ' ';
    assert x[0..7][0] == ' ' && "imports"[0] == 'i';
    assert !WordAt(x, 0, "imports", wordTable);
    assert x[1..8] == "imports";
    FindWordIs(x, 0, "imports", 1, wordTable);
    assert x[8..] == " " + body + " begin";
  }

  lemma BlankEndsWord(t: string, wordTable: char -> bool)
    ensures WordAt(t + " begin", |t| + 1, "begin", wordTable)
  {
    var x := t + " begin";
    assert x[|t| + 1..|t| + 6] == "begin" && x[|t|] == ' ';
  }

  lemma LastWordIsFound(t: string, wordTable: char -> bool)
    requires NoBegin(t, wordTable)
    ensures FindWord(t + " begin", 0, "begin", wordTable) == Some(|t| + 1)
  {
    hide WordAt, FindWord;
    var x, w, k := t + " begin", "begin", |t| + 1;
    assert t + [' '] + w == x;
    BlankEndsWord(t, wordTable);
    forall j: nat | j < k
      ensures !WordAt(x, j, w, wordTable)
    {
      WordSplit(t, ' ', w, j, w, wordTable);
    }
    FindWordIs(x, 0, w, k, wordTable);
  }

  lemma BeginIsFound(body: string, wordTable: char -> bool)
    requires NoBegin(body, wordTable)
    ensures ImportsOf(" " + body + " begin", wordTable) == DropNoise(Tokens(" " + body + " ", 0))
  {
    var x := " " + body + " begin";
    NoBeginSplits(wordTable);
    assert "" + [' '] + body == " " + body;
    assert NoBegin(" " + body, wordTable);
    LastWordIsFound(" " + body, wordTable);
    assert x[..|body| + 2] == " " + body + " ";
  }

  // ----- what the token pattern makes of printed names -----------------------------------------

  lemma TokenShift(p: string, t: string, i: nat)
    requires i < |t|
    ensures var (tok, j) := TokenAt(t, i); TokenAt(p + t, |p| + i) == (tok, |p| + j)
  {
    hide Span;
    SpanShift(p, t, i + 1, NotQuote);
    SpanShift(p, t, i, IsImportChar);
    SliceShift(p, t, i + 1, Span(t, i + 1, NotQuote));
    SliceShift(p, t, i, Span(t, i, IsImportChar));
  }

  lemma {:induction false} TokensShift(p: string, t: string, i: nat)
    requires i <= |t|
    ensures Tokens(p + t, |p| + i) == Tokens(t, i)
    decreases |t| - i
  {
    hide TokenAt;
    if i < |t| {
      TokenShift(p, t, i);
      TokensShift(p, t, TokenAt(t, i).1);
    }
  }

  lemma TokenPlain(a: string, t: string, i: nat)
    requires i < |a| && '"' !in a
    ensures TokenAt(a + " " + t, i) == TokenAt(a, i)
  {
    var x := a + " " + t;
    assert x[|a|] == ' ' && forall j | 0 <= j < |a| :: x[j] == a[j];
    if IsImportStart(a[i]) {
      var k := Span(a, i, IsImportChar);
      SpanIs(x, i, k, IsImportChar);
      assert x[i..k] == a[i..k];
    }
  }

  lemma {:induction false} TokensPlain(a: string, t: string, i: nat)
    requires i <= |a| && '"' !in a
    ensures Tokens(a + " " + t, i) == Tokens(a, i) + Tokens(t, 0)
    decreases |a| - i
  {
    if i == |a| {
      TokensShift(a + " ", t, 0);
      assert (a + " " + t)[i] == ' ';
    } else {
      TokenPlain(a, t, i);
      TokensPlain(a, t, TokenAt(a, i).1);
    }
  }

  lemma TokensQuoted(n: string, t: string)
    requires n != "" && '"' !in n
    ensures Tokens("\"" + n + "\"" + t, 0) == [n] + Tokens(t, 0)
  {
    var p := "\"" + n + "\"";
    var x := p + t;
    assert x[0] == '"' && x[|n| + 1] == '"';
    forall j | 1 <= j < |n| + 1
      ensures NotQuote(x[j])
    {
      assert x[j] == n[j - 1];
    }
    SpanIs(x, 1, |n| + 1, NotQuote);
    assert x[1..|n| + 1] == n;
    TokensShift(p, t, 0);
  }

  /** The tokens that a printed name contributes. */
  function TokensOf(n: string, wordTable: char -> bool): seq<string> {
    if IsBare(n, wordTable) then Tokens(n, 0) else [n]
  }

  function TokensOfAll(names: seq<string>, wordTable: char -> bool): seq<string> {
    if names == [] then [] else TokensOf(names[0], wordTable) + TokensOfAll(names[1..], wordTable)
  }

  /** Names that are neither empty nor hold a quote. */
  ghost predicate Printable(names: seq<string>) {
    forall k | 0 <= k < |names| :: names[k] != "" && '"' !in names[k]
  }

  lemma TokensOneName(n: string, t: string, wordTable: char -> bool)
    requires n != "" && '"' !in n
    ensures Tokens(Quote(n, wordTable) + " " + t, 0) == TokensOf(n, wordTable) + Tokens(t, 0)
  {
    if IsBare(n, wordTable) {
      TokensPlain(n, t, 0);
    } else {
      TokensQuoted(n, " " + t);
      Assoc("\"" + n + "\"", " ", t);
      TokensShift(" ", t, 0);
      assert Tokens(" " + t, 0) == Tokens(" " + t, 1);
    }
  }

  lemma {:induction false} TokensOfBody(names: seq<string>, wordTable: char -> bool)
    requires names != [] && Printable(names)
    ensures Tokens(Join(QuoteAll(names, wordTable), " ") + " ", 0) == TokensOfAll(names, wordTable)
  {
    var q := Quote(names[0], wordTable);
    if |names| == 1 {
      TokensOneName(names[0], "", wordTable);
      assert q + " " + "" == q + " ";
    } else {
      var body := Join(QuoteAll(names[1..], wordTable), " ");
      TokensOfBody(names[1..], wordTable);
      TokensOneName(names[0], body + " ", wordTable);
      Assoc(q + " ", body, " ");
    }
  }

  lemma TokensOfGoodName(n: string, wordTable: char -> bool)
    requires IsBare(n, wordTable) ==> All(n, IsImportChar)
    ensures TokensOf(n, wordTable) == [n]
  {
    if IsBare(n, wordTable) {
      SpanIs(n, 0, |n|, IsImportChar);
      assert n[0..|n|] == n;
      assert TokenAt(n, 0) == (Some(n), |n|) && Tokens(n, |n|) == [];
    }
  }

  lemma {:induction false} TokensOfGoodNames(names: seq<string>, wordTable: char -> bool)
    requires Printable(names)
    requires forall n | n in names :: ReadsBack(n, wordTable)
    ensures DropNoise(TokensOfAll(names, wordTable)) == names
  {
    if names != [] {
      assert names[0] in names;
      TokensOfGoodName(names[0], wordTable);
      TokensOfGoodNames(names[1..], wordTable);
      assert ([names[0]] + TokensOfAll(names[1..], wordTable))[1..] == TokensOfAll(names[1..], wordTable);
    }
  }

  lemma {:induction false} TokensHaveNoQuote(s: string, i: nat)
    requires i <= |s|
    ensures forall t | t in DropNoise(Tokens(s, i)) :: '"' !in t
    decreases |s| - i
  {
    if i < |s| {
      var (t, j) := TokenAt(s, i);
      TokensHaveNoQuote(s, j);
      if t.Some? {
        var rest := Tokens(s, j);
        assert ([t.value] + rest)[1..] == rest;
      }
    }
  }

  // ----- a lost character is never made up for -------------------------------------------------

  /** Neither the blanks nor the quotes that the printer adds. */
  predicate IsInk(c: char) {
    c != ' ' && c != '"'
  }

  predicate IsOdd(c: char) {
    !IsImportChar(c)
  }

  predicate IsParen(c: char) {
    c == '('
  }

  /** How many characters of a kind the strings hold together. */
  function Count(parts: seq<string>, p: char -> bool): nat {
    if parts == [] then 0 else |Filter(parts[0], p)| + Count(parts[1..], p)
  }

  lemma {:induction false} CountAppend(a: seq<string>, b: seq<string>, p: char -> bool)
    ensures Count(a + b, p) == Count(a, p) + Count(b, p)
  {
    if a == [] {
      assert a + b == b;
    } else {
      assert (a + b)[1..] == a[1..] + b;
      CountAppend(a[1..], b, p);
    }
  }

  lemma {:induction false} DropNoiseCount(tokens: seq<string>, p: char -> bool)
    ensures Count(DropNoise(tokens), p) <= Count(tokens, p)
  {
    if tokens != [] {
      DropNoiseCount(tokens[1..], p);
      var rest := DropNoise(tokens[1..]);
      assert ([tokens[0]] + rest)[1..] == rest;
    }
  }

  lemma {:induction false} DropNoiseHasNone(tokens: seq<string>)
    ensures forall n | n in DropNoise(tokens) :: !IsNoise(n)
  {
    if tokens != [] {
      DropNoiseHasNone(tokens[1..]);
    }
  }

  lemma FilterSlices(s: string, i: nat, j: nat, k: nat, p: char -> bool)
    requires i <= j <= k <= |s|
    ensures |Filter(s[j..k], p)| + |Filter(s[k..], p)| <= |Filter(s[i..], p)|
  {
    FilterAppend(s[i..j], s[j..], p);
    FilterAppend(s[j..k], s[k..], p);
    assert s[i..] == s[i..j] + s[j..] && s[j..] == s[j..k] + s[k..];
  }

  /** The tokens of a text hold no more characters of a kind than the text does. */
  lemma {:induction false} TokensCount(s: string, i: nat, p: char -> bool)
    requires i <= |s|
    ensures Count(Tokens(s, i), p) <= |Filter(s[i..], p)|
    decreases |s| - i
  {
    if i < |s| {
      var (t, j) := TokenAt(s, i);
      TokensCount(s, j, p);
      FilterSlices(s, i, j, j, p);
      if t.Some? {
        var a, k := if s[i] == '"' then i + 1 else i, if s[i] == '"' then j - 1 else j;
        assert t.value == s[a..k];
        FilterSlices(s, i, a, k, p);
        FilterSlices(s, k, j, j, p);
        assert ([t.value] + Tokens(s, j))[1..] == Tokens(s, j);
      }
    }
  }

  lemma {:induction false} FilterKeepsAll(s: string, p: char -> bool)
    requires All(s, p)
    ensures Filter(s, p) == s
  {
    if s != "" {
      FilterKeepsAll(s[1..], p);
    }
  }

  lemma {:induction false} FilterKeepsNone(s: string, p: char -> bool)
    requires forall k | 0 <= k < |s| :: !p(s[k])
    ensures Filter(s, p) == ""
  {
    if s != "" {
      FilterKeepsNone(s[1..], p);
    }
  }

  lemma {:induction false} BodyCount(names: seq<string>, p: char -> bool, wordTable: char -> bool)
    requires !p(' ') && !p('"')
    ensures |Filter(Join(QuoteAll(names, wordTable), " "), p)| == Count(names, p)
  {
    if names != [] {
      var q := Quote(names[0], wordTable);
      FilterAppend("\"", names[0], p);
      FilterAppend("\"" + names[0], "\"", p);
      FilterKeepsNone("\"", p);
      assert |Filter(q, p)| == |Filter(names[0], p)|;
      BodyCount(names[1..], p, wordTable);
      if |names| > 1 {
        var body := Join(QuoteAll(names[1..], wordTable), " ");
        FilterAppend(q, " ", p);
        FilterAppend(q + " ", body, p);
        FilterKeepsNone(" ", p);
      }
    }
  }

  /** The first whole word `begin` after a body that holds one. */
  lemma InnerBegin(body: string, wordTable: char -> bool) returns (m: nat)
    requires !NoBegin(body, wordTable)
    ensures m + 5 <= |body| + 1 && (" " + body)[m..m + 5] == "begin"
    ensures ImportsOf(" " + body + " begin", wordTable) == DropNoise(Tokens((" " + body)[..m], 0))
  {
    var t := " " + body;
    var x := t + " begin";
    var k: nat :| WordAt(body, k, "begin", wordTable);
    WordSplit("", ' ', body, k + 1, "begin", wordTable);
    WordSplit(t, ' ', "begin", k + 1, "begin", wordTable);
    assert "" + [' '] + body == t && t + [' '] + "begin" == x;
    m := FindWord(x, 0, "begin", wordTable).value;
    assert m <= k + 1;
    assert x[..m] == t[..m] && x[m..m + 5] == t[m..m + 5];
  }

  /** What lies before the cut and the letters of the word itself fit into the body. */
  lemma CutCount(t: string, m: nat)
    requires m + 5 <= |t| && t[m..m + 5] == "begin"
    ensures |Filter(t[..m], IsInk)| + 5 <= |Filter(t, IsInk)|
  {
    FilterSlices(t, 0, 0, m, IsInk);
    FilterSlices(t, m, m, m + 5, IsInk);
    assert t[0..] == t && t[0..m] == t[..m];
    FilterKeepsAll("begin", IsInk);
  }

  /** A whole word `begin` inside the names cuts the import list short. */
  lemma InnerBeginLosesText(names: seq<string>, wordTable: char -> bool)
    requires names != [] && exists n :: n in names && !NoBegin(n, wordTable)
    ensures ImportsOf(" " + Join(QuoteAll(names, wordTable), " ") + " begin", wordTable) != names
  {
    var body := Join(QuoteAll(names, wordTable), " ");
    NoBeginSplits(wordTable);
    JoinSplits(s => NoBegin(s, wordTable), names, wordTable);
    var m := InnerBegin(body, wordTable);
    var t := " " + body;
    TokensCount(t[..m], 0, IsInk);
    assert t[..m][0..] == t[..m];
    DropNoiseCount(Tokens(t[..m], 0), IsInk);
    CutCount(t, m);
    FilterAppend(" ", body, IsInk);
    FilterKeepsNone(" ", IsInk);
    BodyCount(names, IsInk, wordTable);
  }

  lemma {:induction false} PlainTokensHaveNoOdd(a: string, i: nat)
    requires i <= |a| && '"' !in a
    ensures Count(Tokens(a, i), IsOdd) == 0
    decreases |a| - i
  {
    if i < |a| {
      var (t, j) := TokenAt(a, i);
      PlainTokensHaveNoOdd(a, j);
      if t.Some? {
        FilterKeepsNone(t.value, IsOdd);
        assert ([t.value] + Tokens(a, j))[1..] == Tokens(a, j);
      }
    }
  }

  lemma {:induction false} HasOdd(n: string)
    requires !All(n, IsImportChar)
    ensures |Filter(n, IsOdd)| > 0
  {
    if IsImportChar(n[0]) {
      HasOdd(n[1..]);
    }
  }

  lemma {:induction false} OddCount(names: seq<string>, wordTable: char -> bool)
    requires Printable(names)
    ensures Count(TokensOfAll(names, wordTable), IsOdd) <= Count(names, IsOdd)
    ensures (exists n :: n in names && IsBare(n, wordTable) && !All(n, IsImportChar)) ==>
              Count(TokensOfAll(names, wordTable), IsOdd) < Count(names, IsOdd)
  {
    if names != [] {
      var n := names[0];
      OddCount(names[1..], wordTable);
      CountAppend(TokensOf(n, wordTable), TokensOfAll(names[1..], wordTable), IsOdd);
      if IsBare(n, wordTable) {
        PlainTokensHaveNoOdd(n, 0);
        if !All(n, IsImportChar) {
          HasOdd(n);
        }
      } else {
        assert [n][1..] == [];
      }
    }
  }

  // ----- a comment inside the header is lost ---------------------------------------------------

  /** Stripping adds nothing, and loses the parenthesis that opens a comment. */
  lemma {:induction false} StripCount(text: string, i: nat, depth: nat, p: char -> bool)
    requires i <= |text|
    ensures |Filter(StripFrom(text, i, depth), p)| <= |Filter(text[i..], p)|
    decreases |text| - i
  {
    if i < |text| {
      SuffixCons(text, i);
      if StartsWith(text, i, "(*") {
        StripCount(text, i + 2, depth + 1, p);
        FilterSlices(text, i, i, i + 2, p);
      } else if depth > 0 && StartsWith(text, i, "*)") {
        StripCount(text, i + 2, depth - 1, p);
        FilterSlices(text, i, i, i + 2, p);
      } else {
        StripCount(text, i + 1, depth, p);
        var rest := StripFrom(text, i + 1, depth);
        FilterAppend([text[i]], rest, p);
        FilterAppend("\n", rest, p);
        FilterAppend([text[i]], text[i + 1..], p);
      }
    }
  }

  lemma {:induction false} StripLosesOpening(text: string, i: nat, k: nat)
    requires i <= k && StartsWith(text, k, "(*")
    ensures |Filter(StripFrom(text, i, 0), IsParen)| < |Filter(text[i..], IsParen)|
    decreases |text| - i
  {
    SuffixCons(text, i);
    FilterAppend([text[i]], text[i + 1..], IsParen);
    if StartsWith(text, i, "(*") {
      StripCount(text, i + 2, 1, IsParen);
      FilterSlices(text, i + 1, i + 1, i + 2, IsParen);
      assert text[i..i + 2][0] == '(';
    } else {
      StripLosesOpening(text, i + 1, k);
      FilterAppend([text[i]], StripFrom(text, i + 1, 0), IsParen);
    }
  }

  lemma SuffixCount(s: string, k: nat, p: char -> bool)
    requires k <= |s|
    ensures |Filter(s[k..], p)| <= |Filter(s, p)| && |Filter(s[..k], p)| <= |Filter(s, p)|
  {
    FilterAppend(s[..k], s[k..], p);
    assert s[..k] + s[k..] == s;
  }

  /** The imports hold no more characters of a kind than the text they are read from, and no quotes. */
  lemma ImportsCount(after: string, p: char -> bool, wordTable: char -> bool)
    ensures Count(ImportsOf(after, wordTable), p) <= |Filter(after, p)|
    ensures forall t | t in ImportsOf(after, wordTable) :: '"' !in t
  {
    var bm := FindWord(after, 0, "begin", wordTable);
    var raw := if bm.Some? then after[..bm.value] else after;
    SuffixCount(after, |raw|, p);
    assert after[..|raw|] == raw && raw[0..] == raw;
    TokensCount(raw, 0, p);
    DropNoiseCount(Tokens(raw, 0), p);
    TokensHaveNoQuote(raw, 0);
  }

  // ----- the round trip ------------------------------------------------------------------------

  lemma ImportsOfPrintable(names: seq<string>, wordTable: char -> bool)
    requires names != [] && Printable(names) && forall n | n in names :: NoBegin(n, wordTable)
    ensures ImportsOf(" " + Join(QuoteAll(names, wordTable), " ") + " begin", wordTable) == names <==>
              forall n | n in names :: ReadsBack(n, wordTable)
  {
    var body := Join(QuoteAll(names, wordTable), " ");
    NoBeginSplits(wordTable);
    JoinSplits(s => NoBegin(s, wordTable), names, wordTable);
    BeginIsFound(body, wordTable);
    TokensOfBody(names, wordTable);
    Assoc(" ", body, " ");
    TokensShift(" ", body + " ", 0);
    var tokens := TokensOfAll(names, wordTable);
    DropNoiseHasNone(tokens);
    DropNoiseCount(tokens, IsOdd);
    OddCount(names, wordTable);
    if forall n | n in names :: ReadsBack(n, wordTable) {
      TokensOfGoodNames(names, wordTable);
    }
  }

  /** The import names of a printed header come back exactly when each of them can be read back. */
  lemma ImportsRoundTrip(names: seq<string>, wordTable: char -> bool)
    requires names != [] && "" !in names
    ensures ImportsOf(" " + Join(QuoteAll(names, wordTable), " ") + " begin", wordTable) == names <==>
              forall n | n in names :: ReadsBack(n, wordTable)
  {
    var body := Join(QuoteAll(names, wordTable), " ");
    var x := " " + body + " begin";
    ImportsCount(x, IsInk, wordTable);
    if exists n :: n in names && !NoBegin(n, wordTable) {
      InnerBeginLosesText(names, wordTable);
    } else if forall n | n in names :: '"' !in n {
      ImportsOfPrintable(names, wordTable);
    }
  }

  lemma {:induction false} EffectiveIsNotEmpty(imports: seq<string>)
    ensures "" !in NonEmpty(imports) && "" !in Effective(imports) && Effective(imports) != []
  {
    if imports != [] {
      EffectiveIsNotEmpty(imports[1..]);
    }
  }

  /** The header for a list of imports that is printed as it is. */
  function HeaderText(name: string, names: seq<string>, wordTable: char -> bool): string {
    "theory " + name + " imports " + Join(QuoteAll(names, wordTable), " ") + " begin"
  }

  lemma WordOpensNothing(w: string)
    requires '(' !in w
    ensures NoOpening(w)
  {
    forall k: nat
      ensures !StartsWith(w, k, "(*")
    {
      assert k + 2 <= |w| ==> w[k..k + 2][0] == w[k];
    }
  }

  lemma NoOpeningIn(name: string, names: seq<string>, wordTable: char -> bool)
    requires All(name, IsNameChar)
    ensures NoOpening(HeaderText(name, names, wordTable)) <==> forall n | n in names :: NoOpening(n)
  {
    var body := Join(QuoteAll(names, wordTable), " ");
    NoOpeningSplits();
    JoinSplits(NoOpening, names, wordTable);
    WordOpensNothing("theory");
    WordOpensNothing(name);
    WordOpensNothing("imports");
    WordOpensNothing("begin");
    hide NoOpening;
    var a := "theory" + [' '] + name;
    var b := a + [' '] + "imports";
    var c := b + [' '] + body;
    assert c + [' '] + "begin" == HeaderText(name, names, wordTable);
  }

  lemma FilterParts(a: string, b: string, c: string, d: string, e: string, p: char -> bool)
    ensures Filter(a + b + c + d + e, p) == Filter(a, p) + Filter(b, p) + Filter(c, p) + Filter(d, p) + Filter(e, p)
  {
    hide Filter;
    FilterAppend(a, b, p);
    FilterAppend(a + b, c, p);
    FilterAppend(a + b + c, d, p);
    FilterAppend(a + b + c + d, e, p);
  }

  /** The characters of a kind that the printer does not add. */
  lemma HeaderTextCount(name: string, names: seq<string>, p: char -> bool, wordTable: char -> bool)
    requires !p('"') && forall k | 0 <= k < |"theory imports begin"| :: !p("theory imports begin"[k])
    ensures |Filter(HeaderText(name, names, wordTable), p)| == |Filter(name, p)| + Count(names, p)
  {
    hide Filter, Join, QuoteAll, Count;
    var w := "theory imports begin";
    var body := Join(QuoteAll(names, wordTable), " ");
    assert w[6] == ' ' && w[..7] == "theory " && w[6..15] == " imports " && w[14..] == " begin";
    BodyCount(names, p, wordTable);
    FilterKeepsNone(w[..7], p);
    FilterKeepsNone(w[6..15], p);
    FilterKeepsNone(w[14..], p);
    FilterParts("theory ", name, " imports ", body, " begin", p);
  }

  // ----- which names come back -----------------------------------------------------------------

  predicate IsNewline(c: char) {
    c == '\n'
  }

  /** A name is either bare, or it is what stands between two quotes. */
  lemma NameShape(s: string, j: nat)
    requires j < |s| && NameAt(s, j).Some?
    ensures var (name, end) := NameAt(s, j).value;
      && j < end <= |s|
      && if s[j] == '"' then '"' !in name && '\n' !in name && j + 2 <= end && name == s[j + 1..end - 1]
         else name != "" && All(name, IsNameChar) && name == s[j..end]
  {
  }

  lemma NameInLine(s: string, q: nat) returns (a: nat, b: nat)
    requires q <= |s| && TheoryAt(s, q).Some?
    ensures var (name, end) := TheoryAt(s, q).value;
      && q <= a <= b <= end <= |s| && name == s[a..b]
      && ((name != "" && All(name, IsNameChar)) || ('"' !in name && '\n' !in name))
  {
    hide NameAt, IsNameChar, IsSpace, IsTab;
    var j := Span(s, Span(s, q, IsTab) + 6, IsSpace);
    NameShape(s, j);
    var end := NameAt(s, j).value.1;
    a, b := if s[j] == '"' then j + 1 else j, if s[j] == '"' then end - 1 else end;
  }

  /** The theory line that is found: where it begins, and where the name stands in it. */
  lemma {:induction false} FoundName(s: string, p: nat) returns (q: nat, a: nat, b: nat)
    requires p <= |s| && FindTheory(s, p).Some?
    ensures var (name, end) := FindTheory(s, p).value;
      && p <= q <= a <= b <= end <= |s| && name == s[a..b]
      && (q == 0 || s[q - 1] == '\n') && TheoryAt(s, q) == Some((name, end))
      && ((name != "" && All(name, IsNameChar)) || ('"' !in name && '\n' !in name))
    decreases |s| - p
  {
    hide TheoryAt, IsNameChar;
    if (p == 0 || s[p - 1] == '\n') && TheoryAt(s, p).Some? {
      q := p;
      a, b := NameInLine(s, q);
    } else {
      q, a, b := FoundName(s, p + 1);
    }
  }

  lemma OpeningIsCounted(x: string)
    requires !NoOpening(x)
    ensures |Filter(StripComments(x), IsParen)| < |Filter(x, IsParen)|
  {
    var k: nat :| StartsWith(x, k, "(*");
    StripLosesOpening(x, 0, k);
    assert x[0..] == x;
  }

  lemma RestCount(rest: string, p: char -> bool, wordTable: char -> bool)
    ensures Count(ImportsAfter(rest, wordTable), p) <= |Filter(rest, p)|
    ensures forall t | t in ImportsAfter(rest, wordTable) :: '"' !in t
  {
    hide Filter, ImportsOf, FindWord;
    var im := FindWord(rest, 0, "imports", wordTable);
    if im.Some? {
      SuffixCount(rest, im.value + 7, p);
      ImportsCount(rest[im.value + 7..], p, wordTable);
    }
  }

  lemma NameAndImportsCount(s: string, p: char -> bool, wordTable: char -> bool)
    requires FindTheory(s, 0).Some?
    ensures var m := FindTheory(s, 0);
      |Filter(m.value.0, p)| + Count(HeaderFrom(s, m, wordTable).imports, p) <= |Filter(s, p)|
  {
    hide Filter, ImportsAfter, TheoryAt, Count;
    var (name, end) := FindTheory(s, 0).value;
    var q, a, b := FoundName(s, 0);
    FilterSlices(s, 0, a, b, p);
    assert s[0..] == s;
    FilterSlices(s, b, end, end, p);
    RestCount(s[end..], p, wordTable);
  }

  /** A comment in the printed header loses a parenthesis, which name and imports cannot make up for. */
  lemma OpeningIsLost(name: string, names: seq<string>, wordTable: char -> bool)
    requires !NoOpening(HeaderText(name, names, wordTable))
    ensures ParseHeader(HeaderText(name, names, wordTable), wordTable) != Header(Some(name), names)
  {
    var x := HeaderText(name, names, wordTable);
    var s := StripComments(x);
    var m := FindTheory(s, 0);
    OpeningIsCounted(x);
    HeaderTextCount(name, names, IsParen, wordTable);
    if m.Some? {
      NameAndImportsCount(s, IsParen, wordTable);
    }
  }

  /** A name that is found behind a line feed stands behind a line feed of an import, which is then lost. */
  lemma LineFeedIsLost(name: string, names: seq<string>, q: nat, end: nat, wordTable: char -> bool)
    requires var x := HeaderText(name, names, wordTable);
      && 0 < q <= end <= |x| && x[q - 1] == '\n' && '\n' !in name
    ensures ImportsAfter(HeaderText(name, names, wordTable)[end..], wordTable) != names
  {
    hide HeaderText, Count, ImportsAfter;
    var x := HeaderText(name, names, wordTable);
    HeaderTextCount(name, names, IsNewline, wordTable);
    FilterKeepsNone(name, IsNewline);
    RestCount(x[end..], IsNewline, wordTable);
    FilterSlices(x, 0, q - 1, q, IsNewline);
    FilterSlices(x, q, end, end, IsNewline);
    assert x[0..] == x && x[q - 1..q] == "\n" && |Filter("\n", IsNewline)| == 1;
  }

  lemma HeaderStart(name: string, names: seq<string>, wordTable: char -> bool)
    requires '"' !in name
    ensures var (x, n) := (HeaderText(name, names, wordTable), |name|);
      && |x| > 8 + n && x[0] == 't' && x[6] == ' ' && x[7 + n] == ' ' && x[8 + n] == 'i'
      && forall k | 7 <= k < 7 + n :: x[k] != '"'
  {
    var (x, n) := (HeaderText(name, names, wordTable), |name|);
    assert x[0] == 't' && x[6] == ' ' && x[7 + n] == ' ' && x[8 + n] == 'i';
    assert forall k | 7 <= k < 7 + n :: x[k] == name[k - 7] && name[k - 7] in name;
  }

  /** In the first line the name is found where it is printed. */
  lemma FirstLineName(name: string, names: seq<string>, wordTable: char -> bool)
    requires '"' !in name && TheoryAt(HeaderText(name, names, wordTable), 0).Some?
    ensures var (r, _) := TheoryAt(HeaderText(name, names, wordTable), 0).value; r != "" && All(r, IsNameChar)
  {
    hide HeaderText;
    var x := HeaderText(name, names, wordTable);
    var n := |name|;
    HeaderStart(name, names, wordTable);
    assert Span(x, 0, IsTab) == 0;
    var j := Span(x, 6, IsSpace);
    assert j <= 8 + n && x[j] != '"';
    NameShape(x, j);
  }

  /** Only a name that is not empty and made of name characters can come back. */
  lemma NameComesBack(name: string, names: seq<string>, wordTable: char -> bool)
    requires ParseHeader(HeaderText(name, names, wordTable), wordTable) == Header(Some(name), names)
    ensures name != "" && All(name, IsNameChar)
  {
    hide HeaderText, TheoryAt, ImportsAfter;
    var x := HeaderText(name, names, wordTable);
    if !NoOpening(x) {
      OpeningIsLost(name, names, wordTable);
    } else {
      StripPlain(x, 0);
      assert x[0..] == x;
      var q, a, b := FoundName(x, 0);
      var end := FindTheory(x, 0).value.1;
      if '"' !in name && '\n' !in name {
        if q > 0 {
          LineFeedIsLost(name, names, q, end, wordTable);
        } else {
          FirstLineName(name, names, wordTable);
        }
      }
    }
  }

  // ----- the whole header ----------------------------------------------------------------------

  lemma PlainHeader(name: string, names: seq<string>, wordTable: char -> bool)
    requires name != "" && All(name, IsNameChar) && names != [] && "" !in names
    requires NoOpening(HeaderText(name, names, wordTable))
    ensures ParseHeader(HeaderText(name, names, wordTable), wordTable) == Header(Some(name), names) <==>
              forall n | n in names :: ReadsBack(n, wordTable)
  {
    var body := Join(QuoteAll(names, wordTable), " ");
    var rest := " imports " + body + " begin";
    var x := HeaderText(name, names, wordTable);
    assert x == "theory" + " " + name + rest;
    StripPlain(x, 0);
    assert x[0..] == x;
    NameIsFound(name, rest);
    assert x[7 + |name|..] == rest;
    ImportsAreFound(body, wordTable);
    ImportsRoundTrip(names, wordTable);
  }

  lemma ImportsComeBack(name: string, names: seq<string>, wordTable: char -> bool)
    requires name != "" && All(name, IsNameChar) && names != [] && "" !in names
    ensures ParseHeader(HeaderText(name, names, wordTable), wordTable) == Header(Some(name), names) <==>
              forall n | n in names :: Survives(n, wordTable)
  {
    hide ParseHeader, HeaderText, ReadsBack, NoOpening;
    NoOpeningIn(name, names, wordTable);
    if NoOpening(HeaderText(name, names, wordTable)) {
      PlainHeader(name, names, wordTable);
    } else {
      OpeningIsLost(name, names, wordTable);
    }
  }

  /** Reading back a printed header gives the name and the imports exactly when the name is not empty and made of name
      characters and every import survives; for all names and all lists of imports. */
  lemma HeaderRoundTrip(name: string, imports: seq<string>, wordTable: char -> bool)
    ensures ParseHeader(BuildHeader(name, imports, wordTable), wordTable) == Header(Some(name), Effective(imports)) <==>
              name != "" && All(name, IsNameChar) && forall n | n in Effective(imports) :: Survives(n, wordTable)
  {
    hide ParseHeader, Survives;
    EffectiveIsNotEmpty(imports);
    var names := Effective(imports);
    var x := HeaderText(name, names, wordTable);
    if ParseHeader(x, wordTable) == Header(Some(name), names) {
      NameComesBack(name, names, wordTable);
    }
    if name != "" && All(name, IsNameChar) {
      ImportsComeBack(name, names, wordTable);
    }
  }

  /** A bare name that ends in a prime is read back without it. */
  lemma PrimedImportIsLost(wordTable: char -> bool)
    ensures ParseHeader(BuildHeader("T", ["x'"], wordTable), wordTable) != Header(Some("T"), ["x'"])
  {
    hide ParseHeader, BuildHeader;
    var n := "x'";
    assert IsBare(n, wordTable) && n[1] == '\'' && !All(n, IsImportChar);
    assert NonEmpty([n]) == [n] && n in [n];
    HeaderRoundTrip("T", [n], wordTable);
  }
}

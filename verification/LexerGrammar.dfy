/** What the lexer of evaluation/scripts/theory_splitter.py recognises, against a grammar: plain text, strings with
    escapes, nested comments and two kinds of nested cartouche. */
module LexerGrammar {
  import opened Text
  import opened TheoryLexer

  // ----- the grammar ---------------------------------------------------------------------------

  datatype Kind = Comment | Cartouche | UnicodeCartouche

  /** A character of a string, or any character behind a backslash. */
  datatype StrChar = Lit(c: char) | Esc(c: char)

  datatype Doc =
    | Empty
    | Plain(init: Doc, c: char)
    | Quoted(init: Doc, chars: seq<StrChar>)
    | Nested(init: Doc, kind: Kind, body: Doc)

  /** A text with pieces that are still open, the innermost outside of the others. A string may have a backslash at its
      end whose character is to come. */
  datatype Prefix =
    | Top(doc: Doc)
    | InString(before: Doc, chars: seq<StrChar>, half: bool)
    | In(outer: Prefix, kind: Kind, body: Doc)

  function Opening(k: Kind): string {
    match k
    case Comment => "(*"
    case Cartouche => "\\<open>"
    case UnicodeCartouche => "\U{2039}"
  }

  function Closing(k: Kind): string {
    match k
    case Comment => "*)"
    case Cartouche => "\\<close>"
    case UnicodeCartouche => "\U{203A}"
  }

  function PrintChars(chars: seq<StrChar>): string {
    if chars == [] then ""
    else
      var last := chars[|chars| - 1];
      PrintChars(chars[..|chars| - 1]) + if last.Lit? then [last.c] else ['\\', last.c]
  }

  function Print(d: Doc): string {
    match d
    case Empty => ""
    case Plain(init, c) => Print(init) + [c]
    case Quoted(init, chars) => Print(init) + ("\"" + PrintChars(chars) + "\"")
    case Nested(init, kind, body) => Print(init) + (Opening(kind) + Print(body) + Closing(kind))
  }

  function PrintPrefix(p: Prefix): string {
    match p
    case Top(doc) => Print(doc)
    case InString(before, chars, half) => Print(before) + ("\"" + PrintChars(chars) + if half then "\\" else "")
    case In(outer, kind, body) => PrintPrefix(outer) + (Opening(kind) + Print(body))
  }

  /** A delimiter begins here. Outside of all pieces these are the quote and the three openings; inside a piece its own
      opening and closing. */
  predicate DelimiterAt(mode: Option<Kind>, text: string) {
    match mode
    case None => "\"" <= text || exists k :: Opening(k) <= text
    case Some(k) => Opening(k) <= text || Closing(k) <= text
  }

  predicate LitsOk(chars: seq<StrChar>) {
    forall k | 0 <= k < |chars| && chars[k].Lit? :: chars[k].c != '"' && chars[k].c != '\\'
  }

  /** No plain character of the text, with what follows it, looks like a delimiter; and pieces nest as they may. */
  predicate Fits(d: Doc, mode: Option<Kind>, after: string) {
    match d
    case Empty => true
    case Plain(init, c) => !DelimiterAt(mode, [c] + after) && Fits(init, mode, [c] + after)
    case Quoted(init, chars) =>
      mode.None? && LitsOk(chars) && Fits(init, mode, "\"" + PrintChars(chars) + "\"" + after)
    case Nested(init, kind, body) =>
      && (mode == None || mode == Some(kind))
      && Fits(body, Some(kind), Closing(kind) + after)
      && Fits(init, mode, Opening(kind) + Print(body) + Closing(kind) + after)
  }

  predicate FitsPrefix(p: Prefix, after: string) {
    match p
    case Top(doc) => Fits(doc, None, after)
    case InString(before, chars, half) =>
      LitsOk(chars) && Fits(before, None, "\"" + PrintChars(chars) + (if half then "\\" else "") + after)
    case In(outer, kind, body) =>
      && (outer.Top? || (outer.In? && outer.kind == kind))
      && Fits(body, Some(kind), after)
      && FitsPrefix(outer, Opening(kind) + Print(body) + after)
  }

  /** How many pieces of a kind are open. */
  function Depth(p: Prefix, k: Kind): nat {
    if p.In? then Depth(p.outer, k) + (if p.kind == k then 1 else 0) else 0
  }

  /** The state that shows the open pieces. */
  function Shown(p: Prefix): Lex {
    Lex(Depth(p, Comment), p.InString?, Depth(p, Cartouche), Depth(p, UnicodeCartouche))
  }

  const IN_STRING := CLEAR.(inString := true)

  // ----- single steps --------------------------------------------------------------------------

  function Deeper(s: Lex, k: Kind): Lex {
    match k
    case Comment => s.(commentDepth := s.commentDepth + 1)
    case Cartouche => s.(cartoucheDepth := s.cartoucheDepth + 1)
    case UnicodeCartouche => s.(unicodeCartoucheDepth := s.unicodeCartoucheDepth + 1)
  }

  /** The lexer is outside of all pieces, or in pieces of one kind. */
  ghost predicate InMode(s: Lex, mode: Option<Kind>) {
    match mode
    case None => s == CLEAR
    case Some(Comment) => s == Lex(s.commentDepth, false, 0, 0) && s.commentDepth > 0
    case Some(Cartouche) => s == Lex(0, false, s.cartoucheDepth, 0) && s.cartoucheDepth > 0
    case Some(UnicodeCartouche) => s == Lex(0, false, 0, s.unicodeCartoucheDepth) && s.unicodeCartoucheDepth > 0
  }

  lemma DeeperIsInMode(s: Lex, mode: Option<Kind>, k: Kind)
    requires InMode(s, mode) && (mode == None || mode == Some(k))
    ensures InMode(Deeper(s, k), Some(k))
  {
  }

  lemma NoMode(s: Lex)
    ensures InMode(s, None) <==> s == CLEAR
  {
  }

  lemma StartsIsPrefix(text: string, i: nat, t: string)
    requires i <= |text|
    ensures StartsWith(text, i, t) <==> t <= text[i..]
  {
    if i + |t| <= |text| {
      assert text[i..i + |t|] == text[i..][..|t|];
    }
  }

  lemma StepStarts(text: string, i: nat)
    requires i < |text|
    ensures forall k :: StartsWith(text, i, Opening(k)) <==> Opening(k) <= text[i..]
    ensures forall k :: StartsWith(text, i, Closing(k)) <==> Closing(k) <= text[i..]
    ensures text[i..][0] == text[i] && OPEN == Opening(Cartouche) && CLOSE == Closing(Cartouche)
    ensures forall c: char :: [c] <= text[i..] <==> text[i] == c
    ensures forall t: string | t != "" && t <= text[i..] :: t[0] == text[i]
  {
    forall k
      ensures StartsWith(text, i, Opening(k)) <==> Opening(k) <= text[i..]
      ensures StartsWith(text, i, Closing(k)) <==> Closing(k) <= text[i..]
    {
      StartsIsPrefix(text, i, Opening(k));
      StartsIsPrefix(text, i, Closing(k));
    }
  }

  lemma PlainStep(s: Lex, text: string, i: nat, mode: Option<Kind>)
    requires i < |text| && InMode(s, mode) && !DelimiterAt(mode, text[i..])
    ensures Step(s, text, i) == (s, i + 1) && Run(s, text, i) == Run(s, text, i + 1)
  {
    StepStarts(text, i);
    assert Opening(Comment) == "(*" && Closing(Comment) == "*)";
    assert Opening(UnicodeCartouche) == [UNICODE_OPEN] && Closing(UnicodeCartouche) == [UNICODE_CLOSE];
  }

  lemma OpeningStep(s: Lex, text: string, i: nat, mode: Option<Kind>, k: Kind)
    requires i < |text| && InMode(s, mode) && (mode == None || mode == Some(k)) && Opening(k) <= text[i..]
    ensures Step(s, text, i) == (Deeper(s, k), i + |Opening(k)|)
    ensures Run(s, text, i) == Run(Deeper(s, k), text, i + |Opening(k)|)
  {
    StepStarts(text, i);
    assert Opening(Comment) == "(*" && Opening(UnicodeCartouche) == [UNICODE_OPEN];
    assert text[i] == Opening(k)[0];
  }

  lemma ClosingFacts(text: string, i: nat, k: Kind)
    requires i < |text| && Closing(k) <= text[i..]
    ensures !StartsWith(text, i, "(*") && text[i] != UNICODE_OPEN
    ensures k.Comment? ==> StartsWith(text, i, "*)")
    ensures k.Cartouche? ==> StartsWith(text, i, CLOSE) && !StartsWith(text, i, OPEN)
    ensures k.UnicodeCartouche? ==> text[i] == UNICODE_CLOSE
  {
    StepStarts(text, i);
    assert text[i] == Closing(k)[0];
    if k.Cartouche? {
      assert text[i..][2] == CLOSE[2] == 'c' && OPEN[2] == 'o';
    }
  }

  lemma ClosingStep(s: Lex, text: string, i: nat, mode: Option<Kind>, k: Kind)
    requires i < |text| && InMode(s, mode) && (mode == None || mode == Some(k)) && Closing(k) <= text[i..]
    ensures Step(Deeper(s, k), text, i) == (s, i + |Closing(k)|)
    ensures Run(Deeper(s, k), text, i) == Run(s, text, i + |Closing(k)|)
  {
    hide StartsWith;
    ClosingFacts(text, i, k);
  }

  // ----- a text of the grammar is run through --------------------------------------------------

  lemma Parts(text: string, i: nat, n: nat, a: string, b: string)
    requires i <= n <= |text| && text[i..n] == a + b
    ensures i + |a| <= n && text[i..i + |a|] == a && text[i + |a|..n] == b
    ensures text[i + |a|..] == b + text[n..] && b <= text[i + |a|..]
  {
    assert text[i..n][..|a|] == text[i..i + |a|] && text[i..n][|a|..] == text[i + |a|..n];
    assert text[i + |a|..] == text[i + |a|..n] + text[n..];
  }

  lemma StringStep(text: string, i: nat)
    requires i < |text|
    ensures var s := if text[i] == '"' && Backslashes(text, i) % 2 == 0 then CLEAR else IN_STRING;
      Step(IN_STRING, text, i) == (s, i + 1) && Run(IN_STRING, text, i) == Run(s, text, i + 1)
    ensures Backslashes(text, i + 1) == if text[i] == '\\' then 1 + Backslashes(text, i) else 0
  {
  }

  /** Behind the characters of a string the number of backslashes is even. */
  lemma {:induction false} RunChars(text: string, i: nat, chars: seq<StrChar>)
    requires 0 < i && i + |PrintChars(chars)| <= |text| && text[i - 1] == '"' && LitsOk(chars)
    requires text[i..i + |PrintChars(chars)|] == PrintChars(chars)
    ensures Run(IN_STRING, text, i) == Run(IN_STRING, text, i + |PrintChars(chars)|)
    ensures Backslashes(text, i + |PrintChars(chars)|) % 2 == 0
    decreases |chars|
  {
    hide Run, Step, Backslashes;
    if chars == [] {
      StringStep(text, i - 1);
    } else {
      var (init, last) := (chars[..|chars| - 1], chars[|chars| - 1]);
      var n := i + |PrintChars(chars)|;
      var j := i + |PrintChars(init)|;
      Parts(text, i, n, PrintChars(init), if last.Lit? then [last.c] else ['\\', last.c]);
      RunChars(text, i, init);
      assert text[n - 1] == text[j..n][n - 1 - j];
      StringStep(text, j);
      if last.Lit? {
        assert text[j] == last.c;
      } else {
        assert text[j] == text[j..n][0] == '\\';
        StringStep(text, j + 1);
      }
    }
  }

  lemma {:induction false} RunQuoted(text: string, i: nat, n: nat, chars: seq<StrChar>)
    requires i <= n <= |text| && text[i..n] == "\"" + PrintChars(chars) + "\"" && LitsOk(chars)
    ensures Run(CLEAR, text, i) == Run(CLEAR, text, n)
  {
    Assoc("\"", PrintChars(chars), "\"");
    Parts(text, i, n, "\"", PrintChars(chars) + "\"");
    Parts(text, i + 1, n, PrintChars(chars), "\"");
    assert text[i] == text[i..n][0] == '"';
    assert text[n - 1] == text[i..n][n - 1 - i] == '"';
    StartsFirst(text, i, "(*");
    StartsFirst(text, i, OPEN);
    assert Step(CLEAR, text, i) == (IN_STRING, i + 1);
    RunChars(text, i + 1, chars);
    StringStep(text, n - 1);
  }

  lemma NestedParts(text: string, j: nat, n: nat, kind: Kind, body: Doc)
    requires j <= n <= |text| && text[j..n] == Opening(kind) + Print(body) + Closing(kind)
    ensures var (k, m) := (j + |Opening(kind)|, n - |Closing(kind)|);
      && j < k <= m < n && text[k..m] == Print(body)
      && Opening(kind) <= text[j..] && Closing(kind) <= text[m..] && text[m..] == Closing(kind) + text[n..]
  {
    hide Print;
    var m := n - |Closing(kind)|;
    Parts(text, j, n, Opening(kind) + Print(body), Closing(kind));
    Parts(text, j, m, Opening(kind), Print(body));
    assert text[j..][..|Opening(kind)|] == text[j..j + |Opening(kind)|];
  }

  /** From outside or from inside pieces of its kind: a text of the grammar does not change the state. */
  lemma {:induction false} RunDoc(s: Lex, text: string, i: nat, n: nat, d: Doc, mode: Option<Kind>)
    requires i <= n <= |text| && text[i..n] == Print(d)
    requires InMode(s, mode) && Fits(d, mode, text[n..])
    ensures Run(s, text, i) == Run(s, text, n)
    decreases d
  {
    hide Run, Step, DelimiterAt, InMode, Deeper, Opening, Closing, PrintChars, LitsOk;
    match d
    case Empty =>
    case Plain(init, c) =>
      Parts(text, i, n, Print(init), [c]);
      RunDoc(s, text, i, n - 1, init, mode);
      PlainStep(s, text, n - 1, mode);
    case Quoted(init, chars) =>
      var j := i + |Print(init)|;
      Parts(text, i, n, Print(init), "\"" + PrintChars(chars) + "\"");
      RunDoc(s, text, i, j, init, mode);
      NoMode(s);
      RunQuoted(text, j, n, chars);
    case Nested(init, kind, body) =>
      var j := i + |Print(init)|;
      var (k, m) := (j + |Opening(kind)|, n - |Closing(kind)|);
      Parts(text, i, n, Print(init), Opening(kind) + Print(body) + Closing(kind));
      RunDoc(s, text, i, j, init, mode);
      NestedParts(text, j, n, kind, body);
      OpeningStep(s, text, j, mode, kind);
      DeeperIsInMode(s, mode, kind);
      RunDoc(Deeper(s, kind), text, k, m, body, Some(kind));
      ClosingStep(s, text, m, mode, kind);
  }

  // ----- open pieces are shown -----------------------------------------------------------------

  lemma {:induction false} ShownMode(p: Prefix, after: string)
    requires FitsPrefix(p, after)
    ensures p.Top? ==> Shown(p) == CLEAR
    ensures p.InString? ==> Shown(p) == IN_STRING
    ensures p.In? ==> InMode(Shown(p), Some(p.kind)) && Shown(p) == Deeper(Shown(p.outer), p.kind)
    decreases p
  {
    if p.In? {
      ShownMode(p.outer, Opening(p.kind) + Print(p.body) + after);
    }
  }

  /** The mode in which the lexer is behind a prefix that ends in no string. */
  function ModeOf(p: Prefix): Option<Kind> {
    if p.In? then Some(p.kind) else None
  }

  lemma QuoteStep(text: string, j: nat)
    requires j < |text| && text[j] == '"'
    ensures Step(CLEAR, text, j) == (IN_STRING, j + 1) && Run(CLEAR, text, j) == Run(IN_STRING, text, j + 1)
  {
    StartsFirst(text, j, "(*");
    StartsFirst(text, j, OPEN);
  }

  lemma RunHalf(text: string, j: nat, n: nat, chars: seq<StrChar>, half: bool)
    requires j <= n <= |text| && LitsOk(chars)
    requires text[j..n] == "\"" + PrintChars(chars) + if half then "\\" else ""
    ensures Run(CLEAR, text, j) == Run(IN_STRING, text, n)
    ensures Backslashes(text, n) % 2 == if half then 1 else 0
  {
    hide Run, Step, Backslashes, PrintChars;
    var tail := if half then "\\" else "";
    Assoc("\"", PrintChars(chars), tail);
    Parts(text, j, n, "\"", PrintChars(chars) + tail);
    assert text[j] == text[j..][0] == '"';
    QuoteStep(text, j);
    var m := j + 1 + |PrintChars(chars)|;
    Parts(text, j + 1, n, PrintChars(chars), tail);
    RunChars(text, j + 1, chars);
    if half {
      assert text[m] == text[m..n][0] == '\\';
      StringStep(text, m);
    }
  }

  lemma RunOpenString(text: string, n: nat, before: Doc, chars: seq<StrChar>, half: bool)
    requires n <= |text| && text[..n] == PrintPrefix(InString(before, chars, half))
    requires FitsPrefix(InString(before, chars, half), text[n..])
    ensures Run(CLEAR, text, 0) == Run(IN_STRING, text, n)
    ensures Backslashes(text, n) % 2 == if half then 1 else 0
  {
    hide Run, Step, Backslashes, Print, Fits, PrintChars;
    var j := |Print(before)|;
    var tail := if half then "\\" else "";
    assert text[0..n] == text[..n];
    Parts(text, 0, n, Print(before), "\"" + PrintChars(chars) + tail);
    NoMode(CLEAR);
    RunDoc(CLEAR, text, 0, j, before, None);
    RunHalf(text, j, n, chars, half);
  }

  lemma OpensInside(text: string, j: nat, n: nat, kind: Kind, body: Doc)
    requires j <= n <= |text| && text[j..n] == Opening(kind) + Print(body)
    ensures j < j + |Opening(kind)| <= n && Opening(kind) <= text[j..] && text[j + |Opening(kind)|..n] == Print(body)
  {
    hide Print;
    Parts(text, j, n, Opening(kind), Print(body));
    assert text[j..][..|Opening(kind)|] == text[j..j + |Opening(kind)|];
  }

  lemma {:induction false} RunPrefixOf(text: string, n: nat, p: Prefix)
    requires n <= |text| && text[..n] == PrintPrefix(p) && FitsPrefix(p, text[n..])
    ensures Run(CLEAR, text, 0) == Run(Shown(p), text, n)
    ensures p.InString? ==> Backslashes(text, n) % 2 == if p.half then 1 else 0
    decreases p
  {
    hide Run, Step, Backslashes, Print, Fits, PrintChars, InMode, Deeper, Shown, Opening;
    assert text[0..n] == text[..n];
    ShownMode(p, text[n..]);
    match p
    case Top(doc) =>
      NoMode(CLEAR);
      RunDoc(CLEAR, text, 0, n, doc, None);
    case InString(before, chars, half) =>
      RunOpenString(text, n, before, chars, half);
    case In(outer, kind, body) =>
      var j := |PrintPrefix(outer)|;
      Parts(text, 0, n, PrintPrefix(outer), Opening(kind) + Print(body));
      assert text[0..j] == text[..j];
      RunPrefixOf(text, j, outer);
      ShownMode(outer, text[j..]);
      NoMode(Shown(outer));
      OpensInside(text, j, n, kind, body);
      OpeningStep(Shown(outer), text, j, ModeOf(outer), kind);
      RunDoc(Shown(p), text, j + |Opening(kind)|, n, body, Some(kind));
  }

  /** Behind every prefix of the grammar the state shows the pieces that are open: how deep in which kind, or in a
      string; it is clear exactly when none is. */
  lemma OpenPiecesAreShown(p: Prefix)
    requires FitsPrefix(p, "")
    ensures Run(CLEAR, PrintPrefix(p), 0) == Shown(p)
    ensures Shown(p) == CLEAR <==> p.Top?
  {
    var text := PrintPrefix(p);
    assert text[..|text|] == text && text[|text|..] == "";
    RunPrefixOf(text, |text|, p);
    ShownMode(p, "");
  }

  // ----- every text is read --------------------------------------------------------------------

  /** The prefix with one more plain character, or one more character of a string. */
  function WithChar(p: Prefix, c: char): Prefix {
    match p
    case Top(doc) => Top(Plain(doc, c))
    case In(outer, kind, body) => In(outer, kind, Plain(body, c))
    case InString(before, chars, half) =>
      if half then InString(before, chars + [Esc(c)], false)
      else if c == '\\' then InString(before, chars, true)
      else if c == '"' then Top(Quoted(before, chars))
      else InString(before, chars + [Lit(c)], false)
  }

  /** The prefix in which the innermost piece is closed. */
  function Closed(p: Prefix): Prefix
    requires p.In? && !p.outer.InString?
  {
    match p.outer
    case Top(doc) => Top(Nested(doc, p.kind, p.body))
    case In(outer, kind, body) => In(outer, kind, Nested(body, p.kind, p.body))
  }

  lemma PrintOneMore(chars: seq<StrChar>, x: StrChar)
    ensures PrintChars(chars + [x]) == PrintChars(chars) + if x.Lit? then [x.c] else ['\\', x.c]
  {
    assert (chars + [x])[..|chars|] == chars;
  }

  lemma QuoteCloses(d: Doc, chars: seq<StrChar>, rest: string)
    requires LitsOk(chars) && Fits(d, None, "\"" + PrintChars(chars) + "\"" + rest)
    ensures FitsPrefix(Top(Quoted(d, chars)), rest)
    ensures PrintPrefix(Top(Quoted(d, chars))) == Print(d) + ("\"" + PrintChars(chars)) + "\""
  {
    Assoc(Print(d), "\"" + PrintChars(chars), "\"");
  }

  /** A string text `x`, of which `y` is to be read: it makes no difference on which side of the cut a part stands. */
  lemma Recut(a: string, x: string, y: string, rest: string)
    ensures a + x + (y + rest) == a + (x + y) + "" + rest && a + x + (y + rest) == a + x + y + rest
    ensures a + (x + y) + "" == a + x + y && a + x + "" == a + x
  {
  }

  lemma StringGrows(p: Prefix, c: char, rest: string)
    requires p.InString? && FitsPrefix(p, [c] + rest)
    ensures FitsPrefix(WithChar(p, c), rest) && PrintPrefix(WithChar(p, c)) == PrintPrefix(p) + [c]
  {
    hide Print, Fits, PrintChars;
    var (b, x) := (Print(p.before), PrintChars(p.chars));
    PrintOneMore(p.chars, Esc(c));
    PrintOneMore(p.chars, Lit(c));
    Recut("\"", x, [c], rest);
    if p.half {
      Recut("\"", x, ['\\', c], rest);
      assert "\"" + x + "\\" + ([c] + rest) == "\"" + x + (['\\', c] + rest);
      assert b + ("\"" + (x + ['\\', c]) + "") == b + ("\"" + x + "\\") + [c];
    } else {
      assert "\"" + x + "" + ([c] + rest) == "\"" + x + ([c] + rest);
      assert b + ("\"" + x + "") == b + ("\"" + x);
      Assoc(b, "\"" + x, [c]);
      if c == '"' {
        QuoteCloses(p.before, p.chars, rest);
      }
    }
  }

  lemma PlainGrows(p: Prefix, c: char, rest: string)
    requires !p.InString? && FitsPrefix(p, [c] + rest) && !DelimiterAt(ModeOf(p), [c] + rest)
    ensures FitsPrefix(WithChar(p, c), rest) && PrintPrefix(WithChar(p, c)) == PrintPrefix(p) + [c]
  {
    if p.In? {
      assert Opening(p.kind) + Print(p.body) + ([c] + rest) == Opening(p.kind) + (Print(p.body) + [c]) + rest;
    }
  }

  lemma PieceOpens(p: Prefix, k: Kind, rest: string)
    requires p.Top? || (p.In? && p.kind == k)
    requires FitsPrefix(p, Opening(k) + rest)
    ensures FitsPrefix(In(p, k, Empty), rest) && PrintPrefix(In(p, k, Empty)) == PrintPrefix(p) + Opening(k)
  {
    assert Opening(k) + "" + rest == Opening(k) + rest && Opening(k) + "" == Opening(k);
  }

  lemma QuoteOpens(d: Doc, rest: string)
    requires Fits(d, None, "\"" + rest)
    ensures FitsPrefix(InString(d, [], false), rest) && PrintPrefix(InString(d, [], false)) == Print(d) + "\""
  {
    assert "\"" + "" + "" + rest == "\"" + rest && "\"" + "" + "" == "\"";
  }

  /** The texts of a piece that is closed inside another. */
  lemma Nest(o': string, b': string, o: string, b: string, c: string, rest: string)
    ensures o + b + (c + rest) == o + b + c + rest
    ensures o' + b' + (o + b + c + rest) == o' + (b' + (o + b + c)) + rest
  {
  }

  lemma NestPrinted(x: string, o': string, b': string, o: string, b: string, c: string)
    ensures x + (o + b) + c == x + (o + b + c)
    ensures x + (o' + b') + (o + b) + c == x + (o' + (b' + (o + b + c)))
  {
  }

  lemma PieceCloses(p: Prefix, rest: string)
    requires p.In? && FitsPrefix(p, Closing(p.kind) + rest)
    ensures !p.outer.InString? && FitsPrefix(Closed(p), rest)
    ensures PrintPrefix(Closed(p)) == PrintPrefix(p) + Closing(p.kind)
  {
    hide Opening, Closing;
    var (o, b, c) := (Opening(p.kind), Print(p.body), Closing(p.kind));
    if p.outer.In? {
      var (o', b') := (Opening(p.outer.kind), Print(p.outer.body));
      Nest(o', b', o, b, c, rest);
      NestPrinted(PrintPrefix(p.outer.outer), o', b', o, b, c);
    } else {
      Nest("", "", o, b, c, rest);
      NestPrinted(PrintPrefix(p.outer), "", "", o, b, c);
    }
  }

  /** A text from `i` on that begins with `t`. */
  lemma Cut(text: string, i: nat, t: string)
    requires i <= |text| && t <= text[i..]
    ensures i + |t| <= |text| && text[i..] == t + text[i + |t|..] && text[..i + |t|] == text[..i] + t
  {
    assert text[i..][..|t|] == text[i..i + |t|];
  }

  lemma NotEmpty(k: Kind)
    ensures Opening(k) != "" && Closing(k) != ""
  {
  }

  lemma InnerPieces(p: Prefix, after: string)
    requires FitsPrefix(p, after)
    ensures p.In? ==> !p.outer.InString?
    ensures p.Top? ==> Fits(p.doc, None, after) && PrintPrefix(p) == Print(p.doc)
  {
  }

  /** What is read next: a delimiter or a single character. */
  lemma ReadNext(text: string, i: nat, p: Prefix) returns (j: nat, q: Prefix)
    requires i < |text| && PrintPrefix(p) == text[..i] && FitsPrefix(p, text[i..])
    ensures i < j <= |text| && PrintPrefix(q) == text[..j] && FitsPrefix(q, text[j..])
  {
    hide FitsPrefix, PrintPrefix, Opening, Closing, WithChar, Closed;
    var rest := text[i..];
    InnerPieces(p, rest);
    if p.InString? {
      Cut(text, i, [text[i]]);
      j, q := i + 1, WithChar(p, text[i]);
      StringGrows(p, text[i], text[j..]);
    } else if !DelimiterAt(ModeOf(p), rest) {
      Cut(text, i, [text[i]]);
      j, q := i + 1, WithChar(p, text[i]);
      PlainGrows(p, text[i], text[j..]);
    } else if p.Top? && "\"" <= rest {
      Cut(text, i, "\"");
      j, q := i + 1, InString(p.doc, [], false);
      QuoteOpens(p.doc, text[j..]);
    } else if p.In? && Closing(p.kind) <= rest {
      Cut(text, i, Closing(p.kind));
      NotEmpty(p.kind);
      j, q := i + |Closing(p.kind)|, Closed(p);
      PieceCloses(p, text[j..]);
    } else {
      var k :| Opening(k) <= rest && (p.Top? || p.kind == k);
      Cut(text, i, Opening(k));
      NotEmpty(k);
      j, q := i + |Opening(k)|, In(p, k, Empty);
      PieceOpens(p, k, text[j..]);
    }
  }

  lemma {:induction false} ReadOn(text: string, i: nat, p: Prefix) returns (q: Prefix)
    requires i <= |text| && PrintPrefix(p) == text[..i] && FitsPrefix(p, text[i..])
    ensures PrintPrefix(q) == text && FitsPrefix(q, "")
    decreases |text| - i
  {
    if i == |text| {
      assert text[..i] == text && text[i..] == "";
      q := p;
    } else {
      var j, r := ReadNext(text, i, p);
      q := ReadOn(text, j, r);
    }
  }

  lemma EmptyFits(text: string)
    ensures FitsPrefix(Top(Empty), text) && PrintPrefix(Top(Empty)) == ""
  {
  }

  /** Every text is a prefix of the grammar. So the state behind it is clear exactly when the text is one of the
      grammar, without open pieces. */
  lemma ClearExactly(text: string)
    ensures exists p :: FitsPrefix(p, "") && PrintPrefix(p) == text && Run(CLEAR, text, 0) == Shown(p)
    ensures Run(CLEAR, text, 0) == CLEAR <==> exists d :: Fits(d, None, "") && Print(d) == text
  {
    hide Run, Shown, Fits, Print;
    assert text[..0] == "" && text[0..] == text;
    EmptyFits(text);
    var p := ReadOn(text, 0, Top(Empty));
    OpenPiecesAreShown(p);
    InnerPieces(p, "");
    if p.Top? {
      assert Fits(p.doc, None, "") && Print(p.doc) == text;
    }
    forall d | Fits(d, None, "") && Print(d) == text
      ensures Run(CLEAR, text, 0) == CLEAR
    {
      OpenPiecesAreShown(Top(d));
    }
  }
}

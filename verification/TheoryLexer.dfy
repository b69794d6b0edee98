/** The incremental lexer of evaluation/scripts/theory_splitter.py: nested comments, strings with
    backslash escapes and two kinds of nested cartouche. */
module TheoryLexer {
  import opened Text

  const OPEN := "\\<open>"
  const CLOSE := "\\<close>"
  const UNICODE_OPEN := '\U{2039}'
  const UNICODE_CLOSE := '\U{203A}'

  /** The value of a `LexState` object. */
  datatype Lex = Lex(commentDepth: nat, inString: bool, cartoucheDepth: nat, unicodeCartoucheDepth: nat) {
    predicate Clear() {
      commentDepth == 0 && !inString && cartoucheDepth == 0 && unicodeCartoucheDepth == 0
    }
  }

  const CLEAR := Lex(0, false, 0, 0)

  /** The length of the run of backslashes that ends just before `idx`. */
  function Backslashes(text: string, idx: nat): nat
    requires idx <= |text|
  {
    if idx > 0 && text[idx - 1] == '\\' then 1 + Backslashes(text, idx - 1) else 0
  }

  /** One turn of the lexing loop: the new state and the new index. */
  function Step(s: Lex, text: string, i: nat): (r: (Lex, nat))
    requires i < |text|
    ensures i < r.1 <= |text|
  {
    if s.commentDepth > 0 then
      if StartsWith(text, i, "(*") then (s.(commentDepth := s.commentDepth + 1), i + 2)
      else if StartsWith(text, i, "*)") then (s.(commentDepth := s.commentDepth - 1), i + 2)
      else (s, i + 1)
    else if s.inString then
      (s.(inString := !(text[i] == '"' && Backslashes(text, i) % 2 == 0)), i + 1)
    else if s.cartoucheDepth > 0 then
      if StartsWith(text, i, OPEN) then (s.(cartoucheDepth := s.cartoucheDepth + 1), i + |OPEN|)
      else if StartsWith(text, i, CLOSE) then (s.(cartoucheDepth := s.cartoucheDepth - 1), i + |CLOSE|)
      else (s, i + 1)
    else if s.unicodeCartoucheDepth > 0 then
      if text[i] == UNICODE_OPEN then (s.(unicodeCartoucheDepth := s.unicodeCartoucheDepth + 1), i + 1)
      else if text[i] == UNICODE_CLOSE then (s.(unicodeCartoucheDepth := s.unicodeCartoucheDepth - 1), i + 1)
      else (s, i + 1)
    else if StartsWith(text, i, "(*") then (s.(commentDepth := s.commentDepth + 1), i + 2)
    else if StartsWith(text, i, OPEN) then (s.(cartoucheDepth := s.cartoucheDepth + 1), i + |OPEN|)
    else if text[i] == UNICODE_OPEN then (s.(unicodeCartoucheDepth := s.unicodeCartoucheDepth + 1), i + 1)
    else if text[i] == '"' then (s.(inString := true), i + 1)
    else (s, i + 1)
  }

  /** The state after lexing `text` from index `i` to its end. */
  function Run(s: Lex, text: string, i: nat): Lex
    requires i <= |text|
    decreases |text| - i
  {
    if i == |text| then s
    else
      var (s', j) := Step(s, text, i);
      Run(s', text, j)
  }

  method EscapedQuote(text: string, idx: nat) returns (escaped: bool)
    requires idx <= |text|
    ensures escaped <==> Backslashes(text, idx) % 2 == 1
  {
    var backslashes: nat := 0;
    var j: int := idx - 1;
    while j >= 0 && text[j] == '\\'
      invariant -1 <= j < idx
      invariant Backslashes(text, idx) == backslashes + Backslashes(text, j + 1)
    {
      backslashes := backslashes + 1;
      j := j - 1;
    }
    escaped := backslashes % 2 == 1;
  }

  class LexState {
    var commentDepth: nat
    var inString: bool
    var cartoucheDepth: nat
    var unicodeCartoucheDepth: nat

    function Value(): Lex
      reads this
    {
      Lex(commentDepth, inString, cartoucheDepth, unicodeCartoucheDepth)
    }

    constructor ()
      ensures Value() == CLEAR
    {
      commentDepth, inString, cartoucheDepth, unicodeCartoucheDepth := 0, false, 0, 0;
    }

    predicate Clear()
      reads this
    {
      commentDepth == 0 && !inString && cartoucheDepth == 0 && unicodeCartoucheDepth == 0
    }

    method Advance(text: string, start: nat := 0)
      requires start <= |text|
      modifies this
      ensures Value() == Run(old(Value()), text, start)
    {
      var i := start;
      var n := |text|;
      while i < n
        invariant start <= i <= n
        invariant Run(old(Value()), text, start) == Run(Value(), text, i)
      {
        if commentDepth > 0 {
          if StartsWith(text, i, "(*") {
            commentDepth := commentDepth + 1;
            i := i + 2;
            continue;
          }
          if StartsWith(text, i, "*)") {
            commentDepth := commentDepth - 1;
            i := i + 2;
            continue;
          }
          i := i + 1;
          continue;
        }
        if inString {
          var escaped := EscapedQuote(text, i);
          if text[i] == '"' && !escaped {
            inString := false;
          }
          i := i + 1;
          continue;
        }
        if cartoucheDepth > 0 {
          if StartsWith(text, i, OPEN) {
            cartoucheDepth := cartoucheDepth + 1;
            i := i + |OPEN|;
            continue;
          }
          if StartsWith(text, i, CLOSE) {
            cartoucheDepth := cartoucheDepth - 1;
            i := i + |CLOSE|;
            continue;
          }
          i := i + 1;
          continue;
        }
        if unicodeCartoucheDepth > 0 {
          if text[i] == UNICODE_OPEN {
            unicodeCartoucheDepth := unicodeCartoucheDepth + 1;
          } else if text[i] == UNICODE_CLOSE {
            unicodeCartoucheDepth := unicodeCartoucheDepth - 1;
          }
          i := i + 1;
          continue;
        }
        if StartsWith(text, i, "(*") {
          commentDepth := commentDepth + 1;
          i := i + 2;
          continue;
        }
        if StartsWith(text, i, OPEN) {
          cartoucheDepth := cartoucheDepth + 1;
          i := i + |OPEN|;
          continue;
        }
        if text[i] == UNICODE_OPEN {
          unicodeCartoucheDepth := unicodeCartoucheDepth + 1;
          i := i + 1;
          continue;
        }
        if text[i] == '"' {
          inString := true;
          i := i + 1;
          continue;
        }
        i := i + 1;
      }
    }
  }

  // ----- no token straddles a blank ------------------------------------------------------------

  lemma StartsWithLocal(a: string, w: string, b: string, i: nat, t: string)
    requires i < |a| && w != "" && AllSpace(w) && NoSpace(t)
    ensures StartsWith(a + w + b, i, t) <==> StartsWith(a, i, t)
  {
    var x := a + w + b;
    if i + |t| <= |a| {
      assert x[i..i + |t|] == a[i..i + |t|];
    } else if i + |t| <= |x| {
      assert x[i..i + |t|][|a| - i] == x[|a|] == w[0];
    }
  }

  lemma {:induction false} BackslashesLocal(a: string, x: string, i: nat)
    requires i <= |a| && a <= x
    ensures Backslashes(x, i) == Backslashes(a, i)
  {
    if i > 0 {
      BackslashesLocal(a, x, i - 1);
    }
  }

  lemma StepLocal(s: Lex, a: string, w: string, b: string, i: nat)
    requires i < |a| && w != "" && AllSpace(w)
    ensures Step(s, a + w + b, i) == Step(s, a, i)
  {
    StartsWithLocal(a, w, b, i, "(*");
    StartsWithLocal(a, w, b, i, "*)");
    StartsWithLocal(a, w, b, i, OPEN);
    StartsWithLocal(a, w, b, i, CLOSE);
    BackslashesLocal(a, a + w + b, i);
  }

  lemma {:induction false} RunPrefix(s: Lex, a: string, w: string, b: string, i: nat)
    requires i <= |a| && w != "" && AllSpace(w)
    ensures Run(s, a + w + b, i) == Run(Run(s, a, i), a + w + b, |a|)
    decreases |a| - i
  {
    if i < |a| {
      StepLocal(s, a, w, b, i);
      var (s', j) := Step(s, a, i);
      RunPrefix(s', a, w, b, j);
    }
  }

  /** Blanks change no state, whatever mode the lexer is in. */
  lemma {:induction false} RunBlanks(s: Lex, x: string, i: nat, j: nat)
    requires i <= j <= |x| && AllSpace(x[i..j])
    ensures Run(s, x, i) == Run(s, x, j)
    decreases j - i
  {
    if i < j {
      assert x[i] == x[i..j][0];
      assert x[i + 1..j] == x[i..j][1..];
      assert !StartsWith(x, i, "(*") && !StartsWith(x, i, "*)") by {
        assert forall t: string | |t| > 0 && StartsWith(x, i, t) :: t[0] == x[i..i + |t|][0];
      }
      assert !StartsWith(x, i, OPEN) && !StartsWith(x, i, CLOSE) by {
        assert forall t: string | |t| > 0 && StartsWith(x, i, t) :: t[0] == x[i..i + |t|][0];
      }
      assert Step(s, x, i) == (s, i + 1);
      RunBlanks(s, x, i + 1, j);
    }
  }

  // ----- what precedes a blank is forgotten ----------------------------------------------------

  ghost predicate EndsPlain(p: string) {
    p == "" || p[|p| - 1] != '\\'
  }

  lemma {:induction false} BackslashesShift(p: string, b: string, i: nat)
    requires i <= |b| && EndsPlain(p)
    ensures Backslashes(p + b, |p| + i) == Backslashes(b, i)
  {
    if i > 0 {
      BackslashesShift(p, b, i - 1);
    }
  }

  lemma StepShift(s: Lex, p: string, b: string, i: nat)
    requires i < |b| && EndsPlain(p)
    ensures var (s', j) := Step(s, b, i); Step(s, p + b, |p| + i) == (s', |p| + j)
  {
    StartsWithShift(p, b, i, "(*");
    StartsWithShift(p, b, i, "*)");
    StartsWithShift(p, b, i, OPEN);
    StartsWithShift(p, b, i, CLOSE);
    BackslashesShift(p, b, i);
  }

  lemma {:induction false} RunSuffix(s: Lex, p: string, b: string, i: nat)
    requires i <= |b| && EndsPlain(p)
    ensures Run(s, p + b, |p| + i) == Run(s, b, i)
    decreases |b| - i
  {
    if i < |b| {
      StepShift(s, p, b, i);
      var (s', j) := Step(s, b, i);
      RunSuffix(s', p, b, j);
    }
  }

  // ----- incremental lexing equals whole-text lexing -------------------------------------------

  /** Lexing can be cut at any run of blanks, from any start state. */
  lemma RunSplit(s: Lex, a: string, w: string, b: string)
    requires w != "" && AllSpace(w)
    ensures Run(s, a + w + b, 0) == Run(Run(s, a, 0), b, 0)
  {
    var x := a + w + b;
    RunPrefix(s, a, w, b, 0);
    assert x[|a|..|a + w|] == w;
    RunBlanks(Run(s, a, 0), x, |a|, |a + w|);
    RunSuffix(Run(s, a, 0), a + w, b, 0);
  }

  lemma RunLStrip(s: Lex, w: string, b: string)
    requires AllSpace(w)
    ensures Run(s, w + b, 0) == Run(s, b, 0)
  {
    assert (w + b)[0..|w|] == w;
    RunBlanks(s, w + b, 0, |w|);
    RunSuffix(s, w, b, 0);
  }

  lemma RunRStrip(s: Lex, text: string)
    ensures Run(s, RStrip(text), 0) == Run(s, text, 0)
  {
    var k := RStripLen(text);
    if k < |text| {
      RunSplit(s, text[..k], text[k..], "");
      assert text == text[..k] + text[k..] + "";
    } else {
      assert text[..k] == text;
    }
  }

  /** Blanks at either end of a text do not matter, from any start state. */
  lemma RunStrip(s: Lex, text: string)
    ensures Run(s, Strip(text), 0) == Run(s, text, 0)
  {
    var k := LeadingSpace(text);
    RunLStrip(s, text[..k], text[k..]);
    assert text == text[..k] + text[k..];
    RunRStrip(s, text[k..]);
  }

  /** The fold of `split_commands`: each line, then a newline. */
  function Feed(s: Lex, lines: seq<string>): Lex
    decreases |lines|
  {
    if lines == [] then s
    else Feed(Run(Run(s, lines[0], 0), "\n", 0), lines[1..])
  }

  lemma {:induction false} FeedIsRun(s: Lex, lines: seq<string>)
    ensures Feed(s, lines) == Run(s, Join(lines, "\n"), 0)
    decreases |lines|
  {
    if lines != [] {
      var s' := Run(s, lines[0], 0);
      RunBlanks(s', "\n", 0, 1);
      FeedIsRun(s', lines[1..]);
      if |lines| > 1 {
        RunSplit(s, lines[0], "\n", Join(lines[1..], "\n"));
      }
    }
  }

  /** Feeding the lines of a text, each followed by a newline, is one pass over the text. */
  lemma IncrementalIsWhole(s: Lex, text: string)
    ensures Feed(s, SplitLines(text)) == Run(s, text, 0)
  {
    FeedIsRun(s, SplitLines(text));
  }

  lemma {:induction false} FeedAppend(s: Lex, a: seq<string>, b: seq<string>)
    ensures Feed(s, a + b) == Feed(Feed(s, a), b)
    decreases |a|
  {
    if a == [] {
      assert a + b == b;
    } else {
      assert (a + b)[1..] == a[1..] + b;
      FeedAppend(Run(Run(s, a[0], 0), "\n", 0), a[1..], b);
    }
  }
}

/** Strings as the Python code sees them: whitespace, strip, join, split, replace. */
module Text {
  datatype Option<+T> = None | Some(value: T)

  /** The characters that `str.strip`, `str.split` and the regular expression `\s` treat as blank. */
  predicate IsSpace(c: char) {
    || '\t' <= c <= '\r'
    || '\U{1C}' <= c <= ' '
    || c == '\U{85}' || c == '\U{A0}' || c == '\U{1680}'
    || '\U{2000}' <= c <= '\U{200A}'
    || c == '\U{2028}' || c == '\U{2029}' || c == '\U{202F}' || c == '\U{205F}' || c == '\U{3000}'
  }

  predicate AllSpace(s: string) {
    forall k | 0 <= k < |s| :: IsSpace(s[k])
  }

  predicate NoSpace(s: string) {
    forall k | 0 <= k < |s| :: !IsSpace(s[k])
  }

  /** `text.startswith(t, i)` */
  predicate StartsWith(text: string, i: nat, t: string) {
    i + |t| <= |text| && text[i..i + |t|] == t
  }

  lemma StartsFirst(text: string, i: nat, t: string)
    requires t != "" && i < |text|
    ensures StartsWith(text, i, t) ==> text[i] == t[0]
  {
    if i + |t| <= |text| {
      assert text[i..i + |t|][0] == text[i];
    }
  }

  predicate IsLetter(c: char) {
    'a' <= c <= 'z' || 'A' <= c <= 'Z'
  }

  predicate IsAlnum(c: char) {
    IsLetter(c) || '0' <= c <= '9'
  }

  /** The class `\w`; for characters outside ASCII the Unicode table is a parameter. */
  predicate IsWord(c: char, wordTable: char -> bool) {
    IsAlnum(c) || c == '_' || (c >= '\U{80}' && wordTable(c))
  }

  /** No letter, digit or underscore, and no word character of the Unicode table. */
  predicate IsBoundary(c: char, wordTable: char -> bool) {
    !('a' <= c <= 'z' || 'A' <= c <= 'Z' || '0' <= c <= '9' || c == '_' || (c >= '\U{80}' && wordTable(c)))
  }

  /** The number of blank characters at the front of `s`. */
  function LeadingSpace(s: string): (k: nat)
    ensures k <= |s| && AllSpace(s[..k])
    ensures k < |s| ==> !IsSpace(s[k])
  {
    if s != "" && IsSpace(s[0]) then 1 + LeadingSpace(s[1..]) else 0
  }

  function LStrip(s: string): string {
    s[LeadingSpace(s)..]
  }

  /** The length of `s` without the blank characters at its end. */
  function RStripLen(s: string): (k: nat)
    ensures k <= |s| && AllSpace(s[k..])
    ensures k > 0 ==> !IsSpace(s[k - 1])
  {
    if s != "" && IsSpace(s[|s| - 1]) then RStripLen(s[..|s| - 1]) else |s|
  }

  function RStrip(s: string): string {
    s[..RStripLen(s)]
  }

  function Strip(s: string): string {
    RStrip(LStrip(s))
  }

  /** `sep.join(parts)` */
  function Join(parts: seq<string>, sep: string): string {
    if |parts| == 0 then ""
    else if |parts| == 1 then parts[0]
    else parts[0] + sep + Join(parts[1..], sep)
  }

  lemma SuffixCons(s: string, i: nat)
    requires i < |s|
    ensures s[i..] == [s[i]] + s[i + 1..]
  {
  }

  lemma Assoc(a: string, b: string, c: string)
    ensures a + b + c == a + (b + c)
  {
  }

  lemma {:induction false} JoinAppend(a: seq<string>, b: seq<string>, sep: string)
    requires a != [] && b != []
    ensures Join(a + b, sep) == Join(a, sep) + sep + Join(b, sep)
  {
    if |a| == 1 {
      assert (a + b)[1..] == b;
    } else {
      JoinAppend(a[1..], b, sep);
      assert (a + b)[1..] == a[1..] + b;
      assert a[0] + sep + (Join(a[1..], sep) + sep + Join(b, sep)) == a[0] + sep + Join(a[1..], sep) + sep
          + Join(b, sep);
    }
  }

  /** The index of the first `c` in `s`, or `|s|`. */
  function IndexOf(s: string, c: char): (k: nat)
    ensures k <= |s| && (k < |s| ==> s[k] == c) && c !in s[..k]
  {
    if s == "" || s[0] == c then 0
    else
      var k := IndexOf(s[1..], c);
      assert s[..k + 1] == [s[0]] + s[1..][..k];
      k + 1
  }

  /** `s.split("\n")` */
  function SplitLines(s: string): (lines: seq<string>)
    ensures lines != []
    ensures forall l | l in lines :: '\n' !in l
    ensures Join(lines, "\n") == s
    decreases |s|
  {
    var k := IndexOf(s, '\n');
    if k == |s| then
      assert s[..k] == s;
      [s]
    else
      var rest := SplitLines(s[k + 1..]);
      assert s == s[..k] + "\n" + s[k + 1..];
      [s[..k]] + rest
  }

  /** `s.replace(old, new)` for a non-empty `old`: leftmost, non-overlapping. */
  function Replace(s: string, target: string, replacement: string): string
    requires target != ""
    decreases |s|
  {
    if s == "" then ""
    else if StartsWith(s, 0, target) then replacement + Replace(s[|target|..], target, replacement)
    else [s[0]] + Replace(s[1..], target, replacement)
  }

  /** The elements of `s` that satisfy `p`, in order. */
  function Filter<T>(s: seq<T>, p: T -> bool): seq<T> {
    if s == [] then [] else if p(s[0]) then [s[0]] + Filter(s[1..], p) else Filter(s[1..], p)
  }

  lemma {:induction false} FilterAppend<T>(a: seq<T>, b: seq<T>, p: T -> bool)
    ensures Filter(a + b, p) == Filter(a, p) + Filter(b, p)
  {
    if a == [] {
      assert a + b == b;
    } else {
      FilterAppend(a[1..], b, p);
      assert (a + b)[1..] == a[1..] + b;
    }
  }

  predicate NotSpace(c: char) {
    !IsSpace(c)
  }

  /** The characters of `s` that are not blank, in order. */
  function NonBlank(s: string): string {
    Filter(s, NotSpace)
  }

  lemma NonBlankAppend(a: string, b: string)
    ensures NonBlank(a + b) == NonBlank(a) + NonBlank(b)
  {
    FilterAppend(a, b, NotSpace);
  }

  lemma {:induction false} NonBlankOfSpace(s: string)
    requires AllSpace(s)
    ensures NonBlank(s) == ""
  {
    if s != "" {
      NonBlankOfSpace(s[1..]);
    }
  }

  lemma NonBlankRStrip(s: string)
    ensures NonBlank(RStrip(s)) == NonBlank(s)
  {
    var k := RStripLen(s);
    assert s == s[..k] + s[k..];
    NonBlankAppend(s[..k], s[k..]);
    NonBlankOfSpace(s[k..]);
  }

  lemma NonBlankStrip(s: string)
    ensures NonBlank(Strip(s)) == NonBlank(s)
  {
    var k := LeadingSpace(s);
    assert s == s[..k] + s[k..];
    NonBlankAppend(s[..k], s[k..]);
    NonBlankOfSpace(s[..k]);
    NonBlankRStrip(s[k..]);
  }

  lemma {:induction false} NonBlankReplace(s: string, target: string, replacement: string)
    requires target != "" && AllSpace(target) && AllSpace(replacement)
    ensures NonBlank(Replace(s, target, replacement)) == NonBlank(s)
    decreases |s|
  {
    if s == "" {
    } else if StartsWith(s, 0, target) {
      var rest := s[|target|..];
      assert s == target + rest;
      NonBlankAppend(target, rest);
      NonBlankAppend(replacement, Replace(rest, target, replacement));
      NonBlankOfSpace(target);
      NonBlankOfSpace(replacement);
      NonBlankReplace(rest, target, replacement);
    } else {
      NonBlankReplace(s[1..], target, replacement);
      NonBlankAppend([s[0]], Replace(s[1..], target, replacement));
      NonBlankAppend([s[0]], s[1..]);
      assert [s[0]] + s[1..] == s;
    }
  }

  /** The end of the longest run of characters from `i` on that all satisfy `p`. */
  function Span(s: string, i: nat, p: char -> bool): (k: nat)
    requires i <= |s|
    ensures i <= k <= |s|
    ensures forall j | i <= j < k :: p(s[j])
    ensures k < |s| ==> !p(s[k])
    decreases |s| - i
  {
    if i < |s| && p(s[i]) then Span(s, i + 1, p) else i
  }

  lemma {:induction false} SpanIs(s: string, i: nat, k: nat, p: char -> bool)
    requires i <= k <= |s| && (forall j | i <= j < k :: p(s[j])) && (k < |s| ==> !p(s[k]))
    ensures Span(s, i, p) == k
    decreases k - i
  {
    if i < k {
      SpanIs(s, i + 1, k, p);
    }
  }

  lemma {:induction false} SpanShift(p: string, t: string, i: nat, q: char -> bool)
    requires i <= |t|
    ensures Span(p + t, |p| + i, q) == |p| + Span(t, i, q)
    decreases |t| - i
  {
    if i < |t| && q(t[i]) {
      SpanShift(p, t, i + 1, q);
    }
  }

  lemma SliceShift(p: string, t: string, a: nat, b: nat)
    requires a <= b <= |t|
    ensures (p + t)[|p| + a..|p| + b] == t[a..b]
  {
  }

  lemma StartsWithShift(p: string, b: string, i: nat, t: string)
    ensures StartsWith(p + b, |p| + i, t) <==> StartsWith(b, i, t)
  {
    if i + |t| <= |b| {
      assert (p + b)[|p| + i..|p| + i + |t|] == b[i..i + |t|];
    }
  }

  /** `s[-n:]` */
  function Tail(s: string, n: nat): (r: string)
    ensures |r| <= n && |r| <= |s| && s[|s| - |r|..] == r && (|s| <= n ==> r == s)
  {
    if |s| <= n then s else s[|s| - n..]
  }

  lemma {:induction false} ReplaceNothing(s: string, target: string, replacement: string)
    requires target != "" && target[0] !in s
    ensures Replace(s, target, replacement) == s
  {
    if s != "" {
      StartsFirst(s, 0, target);
      ReplaceNothing(s[1..], target, replacement);
    }
  }

  lemma StripTrimmed(s: string)
    requires s != "" && !IsSpace(s[0]) && !IsSpace(s[|s| - 1])
    ensures Strip(s) == s
  {
  }

  /** What `Strip` leaves begins and ends with a character that is not blank, if anything is left. */
  lemma StripIsTrimmed(s: string)
    ensures Strip(s) != "" ==> !IsSpace(Strip(s)[0]) && !IsSpace(Strip(s)[|Strip(s)| - 1])
    ensures Strip(Strip(s)) == Strip(s)
  {
    var t := Strip(s);
    if t != "" {
      assert t[0] == LStrip(s)[0];
      StripTrimmed(t);
    }
  }
}

/** Dependency keys: `build_dependency_key` of server/app/services/session_manager_helpers.py and the key
    functions of server/app/services/build_verify.py. */
module DependencyKey {
  import opened Text

  const DEFAULT_FIELD := "HOL"

  // ----- sorted(set(...)) ----------------------------------------------------------------------

  /** Python's order on strings: by code point, a proper prefix first. */
  predicate Less(a: string, b: string) {
    if b == "" then false
    else if a == "" then true
    else a[0] < b[0] || (a[0] == b[0] && Less(a[1..], b[1..]))
  }

  lemma {:induction false} LessTotal(a: string, b: string)
    ensures Less(a, b) || a == b || Less(b, a)
    ensures !Less(a, a) && !(Less(a, b) && Less(b, a))
  {
    if a != "" && b != "" {
      LessTotal(a[1..], b[1..]);
      assert a[0] == b[0] && a[1..] == b[1..] ==> a == b by {
        SuffixCons(a, 0);
        SuffixCons(b, 0);
      }
    }
    if a != "" {
      LessTotal(a[1..], a[1..]);
    }
  }

  lemma {:induction false} LessTransitive(a: string, b: string, c: string)
    requires Less(a, b) && Less(b, c)
    ensures Less(a, c)
  {
    if a != "" && a[0] == b[0] == c[0] {
      LessTransitive(a[1..], b[1..], c[1..]);
    }
  }

  /** Sorted without repetition. */
  ghost predicate StrictlySorted(s: seq<string>) {
    forall i, j | 0 <= i < j < |s| :: Less(s[i], s[j])
  }

  /** Put `x` into a sorted sequence unless it is there. */
  function Insert(x: string, s: seq<string>): (r: seq<string>)
    requires StrictlySorted(s)
    ensures StrictlySorted(r)
    ensures forall y :: y in r <==> y == x || y in s
  {
    if s == [] then [x]
    else if x == s[0] then s
    else if Less(x, s[0]) then
      assert forall j | 0 < j < |s| :: Less(x, s[j]) by {
        forall j | 0 < j < |s| ensures Less(x, s[j]) { LessTransitive(x, s[0], s[j]); }
      }
      [x] + s
    else
      LessTotal(x, s[0]);
      var r := Insert(x, s[1..]);
      assert forall y | y in r :: Less(s[0], y);
      [s[0]] + r
  }

  function SortedSet(s: seq<string>): (r: seq<string>)
    ensures StrictlySorted(r)
    ensures forall y :: y in r <==> y in s
  {
    if s == [] then [] else Insert(s[0], SortedSet(s[1..]))
  }

  lemma NothingInNothing(a: seq<string>, b: seq<string>)
    requires forall y :: y in a ==> y in b
    ensures a != [] ==> b != []
  {
    if a != [] {
      assert a[0] in a;
    }
  }

  lemma HeadsAgree(a: seq<string>, b: seq<string>)
    requires StrictlySorted(a) && StrictlySorted(b) && a != [] && b != []
    requires forall y :: y in a <==> y in b
    ensures a[0] == b[0]
  {
    assert a[0] in a && b[0] in b;
    assert a[0] in b && b[0] in a;
    var i :| 0 <= i < |b| && b[i] == a[0];
    var j :| 0 <= j < |a| && a[j] == b[0];
    LessTotal(a[0], b[0]);
  }

  lemma {:induction false} SortedIsUnique(a: seq<string>, b: seq<string>)
    requires StrictlySorted(a) && StrictlySorted(b)
    requires forall y :: y in a <==> y in b
    ensures a == b
  {
    NothingInNothing(a, b);
    NothingInNothing(b, a);
    if a != [] {
      HeadsAgree(a, b);
      forall y
        ensures y in a[1..] <==> y in b[1..]
      {
        LessTotal(a[0], a[0]);
        assert y in a <==> y in b;
      }
      SortedIsUnique(a[1..], b[1..]);
    }
  }

  // ----- normalisation -------------------------------------------------------------------------

  function AsciiLower(c: char): char {
    if 'A' <= c <= 'Z' then (c as int + 32) as char else c
  }

  function Lower(s: string): string {
    seq(|s|, k requires 0 <= k < |s| => AsciiLower(s[k]))
  }

  /** `_normalize_field` */
  function NormalizeField(field: Option<string>): string {
    match field
    case None => DEFAULT_FIELD
    case Some(f) =>
      var t := Strip(f);
      if t == "" || Lower(t) == "null" || Lower(t) == "none" || Lower(t) == "default" then DEFAULT_FIELD else t
  }

  /** The text is the word, in letters of either case. */
  predicate IsWordInAnyCase(t: string, word: string) {
    |t| == |word| && forall k | 0 <= k < |t| :: t[k] == word[k] || ('A' <= t[k] <= 'Z' && t[k] + ' ' == word[k])
  }

  lemma LowerIsWord(t: string, word: string)
    requires forall k | 0 <= k < |word| :: 'a' <= word[k] <= 'z'
    ensures Lower(t) == word <==> IsWordInAnyCase(t, word)
  {
    if IsWordInAnyCase(t, word) {
      assert Lower(t) == word;
    } else if |t| == |word| {
      var k :| 0 <= k < |t| && !(t[k] == word[k] || ('A' <= t[k] <= 'Z' && t[k] + ' ' == word[k]));
      assert Lower(t)[k] == AsciiLower(t[k]);
    }
  }

  /** A field is trimmed; without one, or with a blank one, or one of three words in letters of either case, it is
      HOL. */
  lemma FieldIsNormal(field: Option<string>)
    ensures NormalizeField(None) == "HOL"
    ensures forall f :: field == Some(f) ==>
              var t := Strip(f);
              NormalizeField(field) ==
                if t == "" || IsWordInAnyCase(t, "null") || IsWordInAnyCase(t, "none") || IsWordInAnyCase(t, "default")
                then "HOL" else t
  {
    if field.Some? {
      LowerIsWord(Strip(field.value), "null");
      LowerIsWord(Strip(field.value), "none");
      LowerIsWord(Strip(field.value), "default");
    }
  }

  /** The trimmed theories that are not blank, in the order given. */
  function Cleaned(theories: seq<Option<string>>): seq<string> {
    if theories == [] then []
    else if theories[0].Some? && Strip(theories[0].value) != "" then [Strip(theories[0].value)] + Cleaned(theories[1..])
    else Cleaned(theories[1..])
  }

  /** `_normalize_theories`, for a list that may hold `None`s; `None` for the list itself is the empty list. */
  method NormalizeTheories(theories: seq<Option<string>>) returns (names: seq<string>)
    ensures names == SortedSet(Cleaned(theories))
    ensures StrictlySorted(names)
    ensures forall y :: y in names <==>
              exists k :: 0 <= k < |theories| && theories[k].Some? && y == Strip(theories[k].value) != ""
  {
    var cleaned: seq<string> := [];
    for k := 0 to |theories|
      invariant cleaned + Cleaned(theories[k..]) == Cleaned(theories)
      invariant forall y :: y in cleaned <==>
                  exists j :: 0 <= j < k && theories[j].Some? && y == Strip(theories[j].value) != ""
    {
      assert theories[k..][1..] == theories[k + 1..];
      if theories[k].None? {
        continue;
      }
      var value := Strip(theories[k].value);
      if value != "" {
        cleaned := cleaned + [value];
      }
    }
    assert theories[|theories|..] == [] && cleaned + [] == cleaned;
    names := SortedSet(cleaned);
  }

  // ----- the text that is hashed ---------------------------------------------------------------

  function KeyText(field: string, names: seq<string>, extra: string): string {
    field + "::" + Join(names, "|") + (if extra != "" then "::" + extra else "")
  }

  /** `build_dependency_key`: `extra` is "" for `None`. */
  function BuildKey(hash: string -> string, field: Option<string>, theories: seq<Option<string>>,
                    extra: string): string {
    hash(KeyText(NormalizeField(field), SortedSet(Cleaned(theories)), extra))
  }

  // ----- when the text can be taken apart again ------------------------------------------------

  ghost predicate Has(s: string, t: string) {
    exists k: nat :: StartsWith(s, k, t)
  }

  /** No "::" inside and no colon at the end. */
  ghost predicate Closed(s: string) {
    !Has(s, "::") && (s != "" ==> s[|s| - 1] != ':')
  }

  /** `b` is `a` with more of the same text: one colon, or two and whatever precedes the next two. */
  ghost predicate Shifts(a: string, t: string, b: string, u: string) {
    || (b == a + ":" && t == ":" + u)
    || (|b| >= |a| + 2 && b == a + "::" + b[|a| + 2..] && t == b[|a| + 2..] + "::" + u)
  }

  lemma SameFront(a: string, t: string, b: string, u: string)
    requires |a| == |b|
    ensures a + "::" + t == b + "::" + u <==> a == b && t == u
  {
    var x, y := a + "::" + t, b + "::" + u;
    assert x[..|a|] == a && y[..|a|] == b;
    assert x[|a| + 2..] == t && y[|a| + 2..] == u;
  }

  lemma LongerFront(a: string, t: string, b: string, u: string)
    requires |a| < |b|
    ensures a + "::" + t == b + "::" + u <==> Shifts(a, t, b, u)
  {
    var x, y := a + "::" + t, b + "::" + u;
    if x == y {
      assert b == y[..|b|] == x[..|b|];
      assert t == x[|a| + 2..] == y[|a| + 2..];
      if |b| == |a| + 1 {
        assert b == a + ":";
        assert t == ":" + u;
      } else {
        assert b == a + "::" + b[|a| + 2..];
        assert t == b[|a| + 2..] + "::" + u;
      }
    }
    if Shifts(a, t, b, u) {
      if b == a + ":" && t == ":" + u {
        assert x == a + "::" + ":" + u == y;
      } else {
        var m := b[|a| + 2..];
        assert x == a + "::" + (m + "::" + u) == a + "::" + m + "::" + u == y;
      }
    }
  }

  /** When two texts with a "::" in them agree: exactly when their parts do, or one front is the other shifted. */
  lemma ColonTexts(a: string, t: string, b: string, u: string)
    ensures a + "::" + t == b + "::" + u <==> (a == b && t == u) || Shifts(a, t, b, u) || Shifts(b, u, a, t)
  {
    if |a| == |b| {
      SameFront(a, t, b, u);
    } else if |a| < |b| {
      LongerFront(a, t, b, u);
    } else {
      LongerFront(b, u, a, t);
    }
  }

  /** A front without "::" can only be shifted by one colon. */
  lemma ShiftsByOne(a: string, t: string, b: string, u: string)
    requires !Has(b, "::")
    ensures Shifts(a, t, b, u) <==> b == a + ":" && t == ":" + u
  {
    assert !StartsWith(b, |a|, "::");
    if |b| >= |a| + 2 {
      var m := b[|a| + 2..];
      assert (a + "::" + m)[|a|..|a| + 2] == "::";
    }
  }

  lemma ClosedHasNone(s: string)
    requires Closed(s)
    ensures !Has(s, "::")
  {
  }

  lemma NoColonAtEnd(a: string, b: string)
    requires Closed(b)
    ensures b != a + ":"
  {
    assert (a + ":")[|a|] == ':';
  }

  lemma SplitAtColons(a: string, t: string, b: string, u: string)
    requires Closed(a) && Closed(b) && a + "::" + t == b + "::" + u
    ensures a == b && t == u
  {
    ColonTexts(a, t, b, u);
    ShiftsByOne(a, t, b, u);
    ShiftsByOne(b, u, a, t);
  }

  /** Names that can be told apart when they are joined with bars. */
  ghost predicate BarFree(names: seq<string>) {
    forall k | 0 <= k < |names| :: names[k] != "" && '|' !in names[k]
  }

  ghost predicate GoodNames(names: seq<string>) {
    forall k | 0 <= k < |names| :: names[k] != "" && '|' !in names[k] && Closed(names[k])
  }

  lemma JoinNotEmpty(a: seq<string>)
    requires BarFree(a)
    ensures Join(a, "|") == "" <==> a == []
  {
  }

  /** The first name of a joined list is what precedes the first bar. */
  lemma JoinHead(a: seq<string>)
    requires BarFree(a) && a != []
    ensures var x := Join(a, "|");
      && IndexOf(x, '|') == |a[0]| && x[..|a[0]|] == a[0]
      && (|a| > 1 <==> |a[0]| < |x|) && (|a| > 1 ==> x[|a[0]| + 1..] == Join(a[1..], "|"))
  {
    var x := Join(a, "|");
    assert x[..|a[0]|] == a[0];
    assert forall k | 0 <= k < |a[0]| :: x[k] == a[0][k] && a[0][k] in a[0];
    if |a| > 1 {
      assert x[|a[0]|] == '|';
    }
  }

  lemma {:induction false} JoinIsInjective(a: seq<string>, b: seq<string>)
    requires BarFree(a) && BarFree(b) && Join(a, "|") == Join(b, "|")
    ensures a == b
  {
    if a == [] || b == [] {
      JoinNotEmpty(a);
      JoinNotEmpty(b);
    } else {
      JoinHead(a);
      JoinHead(b);
      assert a[0] == b[0] && |a| > 1 <==> |b| > 1;
      if |a| > 1 {
        JoinIsInjective(a[1..], b[1..]);
      }
    }
  }

  lemma {:induction false} JoinIsClosed(names: seq<string>)
    requires GoodNames(names)
    ensures Closed(Join(names, "|"))
  {
    if |names| > 1 {
      var a, rest := names[0], Join(names[1..], "|");
      JoinIsClosed(names[1..]);
      JoinNotEmpty(names[1..]);
      var x := a + "|" + rest;
      forall k: nat
        ensures !StartsWith(x, k, "::")
      {
        assert !StartsWith(a, k, "::");
        assert k > |a| ==> !StartsWith(rest, k - |a| - 1, "::");
        if k + 2 <= |a| {
          assert x[k..k + 2] == a[k..k + 2];
        } else if k <= |a| {
          assert k + 2 <= |x| ==> x[k..k + 2][|a| - k] == '|';
        } else if k + 2 <= |x| {
          assert x[k..k + 2] == rest[k - |a| - 1..k - |a| + 1];
        }
      }
      assert x[|x| - 1] == rest[|rest| - 1];
    }
  }

  /** What follows the field and its colons. */
  function AfterField(names: seq<string>, extra: string): string {
    Join(names, "|") + (if extra != "" then "::" + extra else "")
  }

  /** When two key texts agree, for all fields, names and extras. */
  lemma KeyTextsAgree(f: string, a: seq<string>, e: string, g: string, b: seq<string>, d: string)
    ensures KeyText(f, a, e) == KeyText(g, b, d) <==>
              || (f == g && AfterField(a, e) == AfterField(b, d))
              || Shifts(f, AfterField(a, e), g, AfterField(b, d))
              || Shifts(g, AfterField(b, d), f, AfterField(a, e))
  {
    Assoc(f + "::", Join(a, "|"), if e != "" then "::" + e else "");
    Assoc(g + "::", Join(b, "|"), if d != "" then "::" + d else "");
    ColonTexts(f, AfterField(a, e), g, AfterField(b, d));
  }

  /** Without extras and without "::" in the fields: two key texts agree exactly when fields and joined names do, or
      one field is the other with a colon at its end and the names make up for it. */
  lemma KeyTextsWithoutExtra(f: string, a: seq<string>, g: string, b: seq<string>)
    requires !Has(f, "::") && !Has(g, "::")
    ensures KeyText(f, a, "") == KeyText(g, b, "") <==>
              || (f == g && Join(a, "|") == Join(b, "|"))
              || (g == f + ":" && Join(a, "|") == ":" + Join(b, "|"))
              || (f == g + ":" && Join(b, "|") == ":" + Join(a, "|"))
  {
    KeyTextsAgree(f, a, "", g, b, "");
    assert AfterField(a, "") == Join(a, "|") && AfterField(b, "") == Join(b, "|");
    ShiftsByOne(f, AfterField(a, ""), g, AfterField(b, ""));
    ShiftsByOne(g, AfterField(b, ""), f, AfterField(a, ""));
  }

  lemma ColonsAreSeen(a: string, t: string)
    ensures !Closed(a + "::" + t)
  {
    var x := a + "::" + t;
    assert x[|a|..|a| + 2] == "::";
    assert StartsWith(x, |a|, "::");
  }

  lemma Tails(ja: string, e: string, jb: string, d: string)
    requires Closed(ja) && Closed(jb)
    requires ja + (if e != "" then "::" + e else "") == jb + (if d != "" then "::" + d else "")
    ensures ja == jb && e == d
  {
    assert ja + "" == ja && jb + "" == jb;
    Assoc(ja, "::", e);
    Assoc(jb, "::", d);
    ColonsAreSeen(ja, e);
    ColonsAreSeen(jb, d);
    if e != "" && d != "" {
      SplitAtColons(ja, e, jb, d);
    }
  }

  lemma KeyTextIsInjective(f: string, a: seq<string>, e: string, g: string, b: seq<string>, d: string)
    requires Closed(f) && Closed(g) && GoodNames(a) && GoodNames(b)
    requires KeyText(f, a, e) == KeyText(g, b, d)
    ensures f == g && a == b && e == d
  {
    KeyTextsAgree(f, a, e, g, b, d);
    ShiftsByOne(f, AfterField(a, e), g, AfterField(b, d));
    ShiftsByOne(g, AfterField(b, d), f, AfterField(a, e));
    JoinIsClosed(a);
    JoinIsClosed(b);
    Tails(Join(a, "|"), e, Join(b, "|"), d);
    JoinIsInjective(a, b);
  }

  // ----- keys are canonical --------------------------------------------------------------------

  ghost predicate Injective(hash: string -> string) {
    forall a, b :: hash(a) == hash(b) ==> a == b
  }

  lemma {:induction false} CleanedNotEmpty(theories: seq<Option<string>>)
    ensures "" !in Cleaned(theories)
  {
    if theories != [] {
      CleanedNotEmpty(theories[1..]);
    }
  }

  lemma {:induction false} CleanedIsBarFree(theories: seq<Option<string>>)
    requires forall y | y in Cleaned(theories) :: '|' !in y
    ensures BarFree(Cleaned(theories)) && BarFree(SortedSet(Cleaned(theories)))
  {
    CleanedNotEmpty(theories);
    var c, s := Cleaned(theories), SortedSet(Cleaned(theories));
    assert forall k | 0 <= k < |c| :: c[k] in c;
    assert forall k | 0 <= k < |s| :: s[k] in s;
  }

  ghost predicate SameNames(a: seq<string>, b: seq<string>) {
    forall y :: y in a <==> y in b
  }

  lemma SameSetSameList(a: seq<string>, b: seq<string>)
    ensures SortedSet(a) == SortedSet(b) <==> SameNames(a, b)
  {
    var sa, sb := SortedSet(a), SortedSet(b);
    assert forall y :: (y in a <==> y in sa) && (y in b <==> y in sb);
    if forall y :: y in a <==> y in b {
      SortedIsUnique(sa, sb);
    }
  }

  /** When two requests get the same key, for all fields, names and extras. */
  lemma KeysAgree(hash: string -> string, f: Option<string>, a: seq<Option<string>>, e: string,
                  g: Option<string>, b: seq<Option<string>>, d: string)
    requires Injective(hash)
    ensures var (x, y) := (AfterField(SortedSet(Cleaned(a)), e), AfterField(SortedSet(Cleaned(b)), d));
      BuildKey(hash, f, a, e) == BuildKey(hash, g, b, d) <==>
        || (NormalizeField(f) == NormalizeField(g) && x == y)
        || Shifts(NormalizeField(f), x, NormalizeField(g), y)
        || Shifts(NormalizeField(g), y, NormalizeField(f), x)
  {
    KeyTextsAgree(NormalizeField(f), SortedSet(Cleaned(a)), e, NormalizeField(g), SortedSet(Cleaned(b)), d);
    hide Shifts, NormalizeField, KeyText, SortedSet, Cleaned;
  }

  lemma HashesAgree(hash: string -> string, x: string, y: string)
    requires Injective(hash)
    ensures hash(x) == hash(y) <==> x == y
  {
  }

  lemma KeyTextIsCanonical(f: string, a: seq<string>, g: string, b: seq<string>)
    requires Closed(f) && Closed(g) && BarFree(a) && BarFree(b)
    ensures KeyText(f, a, "") == KeyText(g, b, "") <==> f == g && a == b
  {
    KeyTextsWithoutExtra(f, a, g, b);
    NoColonAtEnd(f, g);
    NoColonAtEnd(g, f);
    if Join(a, "|") == Join(b, "|") {
      JoinIsInjective(a, b);
    }
  }

  /** Without extra, two requests get the same key exactly when normalised field and set of trimmed names agree. No
      name may hold a bar, and no field "::" or a colon at its end; names may hold any colons. */
  lemma KeysWithoutExtra(hash: string -> string, f: Option<string>, a: seq<Option<string>>,
                         g: Option<string>, b: seq<Option<string>>)
    requires Injective(hash)
    requires Closed(NormalizeField(f)) && Closed(NormalizeField(g))
    requires forall y | y in Cleaned(a) || y in Cleaned(b) :: '|' !in y
    ensures BuildKey(hash, f, a, "") == BuildKey(hash, g, b, "") <==>
              NormalizeField(f) == NormalizeField(g) && SameNames(Cleaned(a), Cleaned(b))
  {
    var sa, sb := SortedSet(Cleaned(a)), SortedSet(Cleaned(b));
    CleanedIsBarFree(a);
    CleanedIsBarFree(b);
    KeyTextIsCanonical(NormalizeField(f), sa, NormalizeField(g), sb);
    HashesAgree(hash, KeyText(NormalizeField(f), sa, ""), KeyText(NormalizeField(g), sb, ""));
    SameSetSameList(Cleaned(a), Cleaned(b));
  }

  lemma SortedIsGood(names: seq<string>)
    requires GoodNames(names)
    ensures GoodNames(SortedSet(names))
  {
    var s := SortedSet(names);
    forall k | 0 <= k < |s|
      ensures s[k] != "" && '|' !in s[k] && Closed(s[k])
    {
      assert s[k] in s;
    }
  }

  /** With extras, two requests get the same key exactly when normalised field, set of trimmed names and extra agree,
      if no name holds "::" or a colon at its end either. */
  lemma KeysAreCanonical(hash: string -> string, f: Option<string>, a: seq<Option<string>>, e: string,
                         g: Option<string>, b: seq<Option<string>>, d: string)
    requires Injective(hash)
    requires Closed(NormalizeField(f)) && Closed(NormalizeField(g))
    requires GoodNames(Cleaned(a)) && GoodNames(Cleaned(b))
    ensures BuildKey(hash, f, a, e) == BuildKey(hash, g, b, d) <==>
              && NormalizeField(f) == NormalizeField(g)
              && SameNames(Cleaned(a), Cleaned(b))
              && e == d
  {
    var sa, sb := SortedSet(Cleaned(a)), SortedSet(Cleaned(b));
    SortedIsGood(Cleaned(a));
    SortedIsGood(Cleaned(b));
    if BuildKey(hash, f, a, e) == BuildKey(hash, g, b, d) {
      KeyTextIsInjective(NormalizeField(f), sa, e, NormalizeField(g), sb, d);
    }
    SameSetSameList(Cleaned(a), Cleaned(b));
  }

  lemma OneName(n: string)
    requires n != "" && !IsSpace(n[0]) && !IsSpace(n[|n| - 1])
    ensures Cleaned([Some(n)]) == [n] && SortedSet(Cleaned([Some(n)])) == [n]
  {
    StripTrimmed(n);
    assert Cleaned([Some(n)][1..]) == [] && Cleaned([Some(n)]) == [n];
    assert SortedSet([n][1..]) == [];
  }

  /** With a colon at the end of a field the text is ambiguous: two different requests, one key. */
  lemma TrailingColonCollides(hash: string -> string)
    ensures BuildKey(hash, Some("A:"), [Some("B")], "") == BuildKey(hash, Some("A"), [Some(":B")], "")
    ensures NormalizeField(Some("A:")) != NormalizeField(Some("A"))
  {
    OneName("B");
    OneName(":B");
    StripTrimmed("A:");
    StripTrimmed("A");
    assert |Lower("A:")| == 2 && |Lower("A")| == 1;
    assert KeyText("A:", ["B"], "") == "A:::B";
    assert KeyText("A", [":B"], "") == "A:::B";
  }

  /** With an extra, a colon at the end of a name is ambiguous as well. */
  lemma NameColonCollides(hash: string -> string)
    ensures BuildKey(hash, Some("A"), [Some("B:")], "x") == BuildKey(hash, Some("A"), [Some("B")], ":x")
  {
    hide Cleaned, SortedSet, NormalizeField;
    OneName("B");
    OneName("B:");
    assert KeyText(NormalizeField(Some("A")), ["B:"], "x") == NormalizeField(Some("A")) + "::B:::x";
    assert KeyText(NormalizeField(Some("A")), ["B"], ":x") == NormalizeField(Some("A")) + "::B:::x";
  }

  /** A bar in a name is taken for two names. */
  lemma TwoNames()
    ensures Cleaned([Some("A"), Some("B")]) == ["A", "B"] && SortedSet(["A", "B"]) == ["A", "B"]
  {
    StripTrimmed("A");
    StripTrimmed("B");
    assert [Some("A"), Some("B")][1..] == [Some("B")] && Cleaned([Some("B")][1..]) == [];
    assert SortedSet(["B"][1..]) == [] && ["A", "B"][1..] == ["B"];
    assert SortedSet(["B"]) == ["B"];
  }

  lemma BarCollides(hash: string -> string, field: Option<string>)
    ensures BuildKey(hash, field, [Some("A|B")], "") == BuildKey(hash, field, [Some("A"), Some("B")], "")
    ensures Cleaned([Some("A|B")]) == ["A|B"] && Cleaned([Some("A"), Some("B")]) == ["A", "B"]
  {
    hide Cleaned, SortedSet;
    OneName("A|B");
    TwoNames();
    assert Join(["A", "B"], "|") == "A|B";
  }

  /** `stable_theory_hash` */
  function TheoryHash(hash: string -> string, field: string, dependencyKey: string, text: string): string {
    hash(field + "::" + dependencyKey + "::" + text)
  }

  /** What `hexdigest` returns. */
  ghost predicate IsHex(s: string) {
    s != "" && forall k | 0 <= k < |s| :: '0' <= s[k] <= '9' || 'a' <= s[k] <= 'f'
  }

  /** A parent session swallows a submission: it holds its parent session and its dependency key, and its own text
      makes up for the rest. */
  ghost predicate Swallows(f: string, k: string, t: string, g: string, l: string, u: string) {
    var n := |f| + 2 + |k|;
    |g| >= n && g[..n] == f + "::" + k && "::" + t == g[n..] + "::" + l + "::" + u
  }

  lemma SwallowedTexts(f: string, k: string, t: string, g: string, l: string, u: string)
    requires |g| >= |f| + 2 + |k|
    ensures f + "::" + k + "::" + t == g + "::" + l + "::" + u <==> Swallows(f, k, t, g, l, u)
  {
    var n := |f| + 2 + |k|;
    var x, y := f + "::" + k + "::" + t, g + "::" + l + "::" + u;
    assert x[..n] == f + "::" + k && x[n..] == "::" + t;
    assert y[..n] == g[..n] && y[n..] == g[n..] + "::" + l + "::" + u;
    assert x == x[..n] + x[n..] && y == y[..n] + y[n..];
  }

  /** A parent session that ends inside the other's key would put a colon into it. */
  lemma ColonInKey(f: string, k: string, t: string, g: string, l: string, u: string)
    requires IsHex(k) && |f| < |g| < |f| + 2 + |k|
    ensures f + "::" + k + "::" + t != g + "::" + l + "::" + u
  {
    var x, y := f + "::" + k + "::" + t, g + "::" + l + "::" + u;
    var i := if |g| == |f| + 1 then |g| + 1 else |g|;
    assert x[i] == k[i - |f| - 2] && y[i] == ':';
  }

  lemma NoShift(a: string, t: string, b: string, u: string)
    requires IsHex(b)
    ensures !Shifts(a, t, b, u)
  {
    assert |b| > |a| ==> b[|a|] != ':';
  }

  lemma SameParent(f: string, k: string, t: string, g: string, l: string, u: string)
    requires |f| == |g| && IsHex(k) && IsHex(l)
    ensures f + "::" + k + "::" + t == g + "::" + l + "::" + u <==> f == g && k == l && t == u
  {
    Assoc(f + "::", k, "::" + t);
    Assoc(f + "::" + k, "::", t);
    Assoc(k, "::", t);
    Assoc(g + "::", l, "::" + u);
    Assoc(g + "::" + l, "::", u);
    Assoc(l, "::", u);
    SameFront(f, k + "::" + t, g, l + "::" + u);
    ColonTexts(k, t, l, u);
    NoShift(k, t, l, u);
    NoShift(l, u, k, t);
  }

  /** Two submissions share a hash exactly when parent session, dependency key and text agree, or the parent session of
      one swallows the other. */
  lemma TheoryHashesAgree(hash: string -> string, f: string, k: string, t: string, g: string, l: string, u: string)
    requires Injective(hash) && IsHex(k) && IsHex(l)
    ensures TheoryHash(hash, f, k, t) == TheoryHash(hash, g, l, u) <==>
              || (f == g && k == l && t == u)
              || Swallows(f, k, t, g, l, u)
              || Swallows(g, l, u, f, k, t)
  {
    if |g| >= |f| + 2 + |k| {
      SwallowedTexts(f, k, t, g, l, u);
    } else if |f| >= |g| + 2 + |l| {
      SwallowedTexts(g, l, u, f, k, t);
    } else if |f| < |g| {
      ColonInKey(f, k, t, g, l, u);
    } else if |g| < |f| {
      ColonInKey(g, l, u, f, k, t);
    } else {
      SameParent(f, k, t, g, l, u);
    }
  }

  lemma NoColonsNoSwallow(f: string, k: string, t: string, g: string, l: string, u: string)
    requires !Has(g, "::")
    ensures !Swallows(f, k, t, g, l, u)
  {
    assert !StartsWith(g, |f|, "::");
    if |g| >= |f| + 2 + |k| {
      assert (f + "::" + k)[|f|..|f| + 2] == "::";
      assert g[..|f| + 2 + |k|][|f|..|f| + 2] == g[|f|..|f| + 2];
    }
  }

  /** A parent session without "::" swallows nothing; so hashes of submissions to such parents are injective. */
  lemma TheoryHashIsInjective(hash: string -> string, f: string, k: string, t: string, g: string, l: string, u: string)
    requires Injective(hash) && !Has(f, "::") && !Has(g, "::") && IsHex(k) && IsHex(l)
    ensures TheoryHash(hash, f, k, t) == TheoryHash(hash, g, l, u) <==> f == g && k == l && t == u
  {
    TheoryHashesAgree(hash, f, k, t, g, l, u);
    NoColonsNoSwallow(f, k, t, g, l, u);
    NoColonsNoSwallow(g, l, u, f, k, t);
  }

  /** A parent session with a key in it, and a text that begins with the other key: two submissions, one hash. */
  lemma ParentSwallows(hash: string -> string, f: string, k: string, l: string, u: string)
    ensures TheoryHash(hash, f, k, l + "::" + u) == TheoryHash(hash, f + "::" + k, l, u)
    ensures Swallows(f, k, l + "::" + u, f + "::" + k, l, u)
  {
    var x := f + "::" + k;
    assert x + "::" + (l + "::" + u) == x + "::" + l + "::" + u;
    assert x[|f| + 2 + |k|..] == "" && x[..|f| + 2 + |k|] == x;
    assert "::" + (l + "::" + u) == "" + "::" + l + "::" + u;
  }
}

/** Boards as text: `python_to_isabelle_board` and `isabelle_to_python_board` of
    previous works/IsabelleGym1.0/IsabelleGym/sliding_puzzle/puzzle_env.py. */
module BoardText {
  import opened Text

  // ----- decimal numbers -----------------------------------------------------------------------

  function DigitChar(d: nat): char
    requires d < 10
  {
    '0' + d as char
  }

  /** `str(n)` for a natural number. */
  function PrintNat(n: nat): (s: string)
    ensures s != "" && forall k | 0 <= k < |s| :: '0' <= s[k] <= '9'
  {
    if n < 10 then [DigitChar(n)] else PrintNat(n / 10) + [DigitChar(n % 10)]
  }

  function PrintInt(n: int): string {
    if n < 0 then "-" + PrintNat(-n) else PrintNat(n)
  }

  /** `int(s)` on digits, from the left. */
  function ParseDigits(s: string): Option<nat> {
    if s == "" then None
    else
      var c := s[|s| - 1];
      if !('0' <= c <= '9') then None
      else if |s| == 1 then Some(c as nat - '0' as nat)
      else
        match ParseDigits(s[..|s| - 1])
        case None => None
        case Some(n) => Some(10 * n + (c as nat - '0' as nat))
  }

  function Signed(negative: bool, n: nat): int {
    if negative then -(n as int) else n as int
  }

  /** `int(s)` for a string without blanks and underscores: an optional sign, then ASCII digits. */
  function ParseInt(s: string): Option<int> {
    var signed := s != "" && (s[0] == '-' || s[0] == '+');
    var n := ParseDigits(if signed then s[1..] else s);
    if n.None? then None else Some(Signed(signed && s[0] == '-', n.value))
  }

  lemma {:induction false} ParsePrintNat(n: nat)
    ensures ParseDigits(PrintNat(n)) == Some(n)
  {
    if n >= 10 {
      ParsePrintNat(n / 10);
      var s := PrintNat(n);
      assert s[..|s| - 1] == PrintNat(n / 10) && s[|s| - 1] == DigitChar(n % 10);
    }
  }

  lemma ParseSigned(negative: bool, digits: string, m: nat)
    requires digits != "" && '0' <= digits[0] <= '9' && ParseDigits(digits) == Some(m)
    ensures ParseInt((if negative then "-" else "") + digits) == Some(Signed(negative, m))
  {
    if negative {
      var s := "-" + digits;
      assert s[1..] == digits && s[0] == '-';
    } else {
      assert "" + digits == digits;
      assert digits[0] != '-' && digits[0] != '+';
    }
  }

  lemma ParsePrintInt(n: int)
    ensures ParseInt(PrintInt(n)) == Some(n)
  {
    var m: nat := if n < 0 then -n else n;
    ParsePrintNat(m);
    ParseSigned(n < 0, PrintNat(m), m);
  }

  // ----- splitting -----------------------------------------------------------------------------

  /** The first place of `sep` from `i` on, or `|s|`. */
  function Find(s: string, sep: string, i: nat): (k: nat)
    requires i <= |s|
    ensures i <= k <= |s| && (k < |s| ==> StartsWith(s, k, sep))
    decreases |s| - i
  {
    if i == |s| || StartsWith(s, i, sep) then i else Find(s, sep, i + 1)
  }

  /** `s.split(sep)` for a non-empty separator. */
  function SplitOn(s: string, sep: string): seq<string>
    requires sep != ""
    decreases |s|
  {
    var k := Find(s, sep, 0);
    if k == |s| then [s] else [s[..k]] + SplitOn(s[k + |sep|..], sep)
  }

  function WordEnd(s: string): (k: nat)
    ensures k <= |s| && NoSpace(s[..k]) && (k < |s| ==> IsSpace(s[k]))
    ensures s != "" && !IsSpace(s[0]) ==> k > 0
  {
    if s == "" || IsSpace(s[0]) then 0
    else
      var k := WordEnd(s[1..]);
      assert s[..k + 1] == [s[0]] + s[1..][..k];
      k + 1
  }

  /** `s.split()`: the maximal runs of characters that are not blank. */
  function Words(s: string): seq<string>
    decreases |s|
  {
    var t := LStrip(s);
    if t == "" then []
    else
      var k := WordEnd(t);
      [t[..k]] + Words(t[k..])
  }

  predicate IsBracket(c: char) {
    c == '[' || c == ']'
  }

  /** `s.strip("[]")` */
  function StripBrackets(s: string): string
    decreases |s|
  {
    if s != "" && IsBracket(s[0]) then StripBrackets(s[1..])
    else if s != "" && IsBracket(s[|s| - 1]) then StripBrackets(s[..|s| - 1])
    else s
  }

  // ----- slots and boards ----------------------------------------------------------------------

  /** `python_to_isabelle_slot` */
  function PrintSlot(slot: int): string {
    if slot == 0 then "Gap" else "Tile " + PrintInt(slot)
  }

  /** `isabelle_to_python_slot`; `None` stands for the exceptions of indexing and of `int`. */
  function ParseSlot(slot: string): Option<int> {
    if slot == "Gap" then Some(0)
    else
      var words := Words(Replace(slot, "(Suc 0)", "1"));
      if |words| < 2 then None else ParseInt(words[1])
  }

  function PrintSlots(board: seq<int>): (r: seq<string>)
    ensures |r| == |board|
  {
    if board == [] then [] else [PrintSlot(board[0])] + PrintSlots(board[1..])
  }

  function ParseSlots(parts: seq<string>): Option<seq<int>> {
    if parts == [] then Some([])
    else
      match ParseSlot(parts[0])
      case None => None
      case Some(n) =>
        match ParseSlots(parts[1..])
        case None => None
        case Some(rest) => Some([n] + rest)
  }

  /** `python_to_isabelle_board` */
  function PrintBoard(board: seq<int>): string {
    "[" + Join(PrintSlots(board), ", ") + "]"
  }

  /** `isabelle_to_python_board` */
  function ParseBoard(text: string): Option<seq<int>> {
    ParseSlots(SplitOn(StripBrackets(text), ", "))
  }

  // ----- a slot comes back ---------------------------------------------------------------------

  /** The characters of printed slots. */
  predicate IsSlotChar(c: char) {
    'a' <= c <= 'z' || 'A' <= c <= 'Z' || '0' <= c <= '9' || c == ' ' || c == '-'
  }

  ghost predicate AllSlotChars(s: string) {
    forall k | 0 <= k < |s| :: IsSlotChar(s[k])
  }

  lemma {:induction false} WordEndIs(a: string, t: string)
    requires NoSpace(a) && (t == "" || IsSpace(t[0]))
    ensures WordEnd(a + t) == |a|
  {
    if a == "" {
      assert a + t == t;
    } else {
      assert !IsSpace(a[0]);
      WordEndIs(a[1..], t);
      assert (a + t)[1..] == a[1..] + t;
    }
  }

  lemma FirstWord(a: string, t: string)
    requires a != "" && NoSpace(a) && (t == "" || IsSpace(t[0]))
    ensures Words(a + t) == [a] + Words(t)
  {
    var s := a + t;
    assert !IsSpace(a[0]) && s[0] == a[0];
    assert LStrip(s) == s;
    WordEndIs(a, t);
    assert s[..|a|] == a && s[|a|..] == t;
  }

  lemma TwoWords(a: string, b: string)
    requires a != "" && NoSpace(a) && b != "" && NoSpace(b)
    ensures Words(a + " " + b) == [a, b]
  {
    Assoc(a, " ", b);
    FirstWord(a, " " + b);
    FirstWord(b, "");
    assert b + "" == b && (" " + b)[1..] == b;
    assert LStrip(" " + b) == LStrip(b);
    assert Words("") == [];
  }

  lemma DigitsAreSlotChars(n: int)
    ensures PrintInt(n) != "" && NoSpace(PrintInt(n)) && AllSlotChars(PrintInt(n))
  {
  }

  lemma TileIsWord()
    ensures NoSpace("Tile")
  {
  }

  lemma TileIsNoGap(rest: string)
    ensures ParseSlot("Tile " + rest) == var words := Words(Replace("Tile " + rest, "(Suc 0)", "1"));
                                         if |words| < 2 then None else ParseInt(words[1])
  {
    assert ("Tile " + rest)[0] == 'T' && "Gap"[0] == 'G';
    hide Replace, Words, ParseInt;
  }

  lemma TileIsRead(digits: string)
    requires digits != "" && NoSpace(digits) && AllSlotChars(digits)
    ensures ParseSlot("Tile " + digits) == ParseInt(digits)
  {
    var s, suc := "Tile " + digits, "(Suc 0)";
    TileIsWord();
    hide Replace, Words, ParseInt, IsSpace, ParseSlot;
    forall k | 0 <= k < |s|
      ensures s[k] != '('
    {
      assert k >= 5 ==> s[k] == digits[k - 5];
    }
    ReplaceNothing(s, suc, "1");
    TwoWords("Tile", digits);
    assert s == "Tile" + " " + digits;
    TileIsNoGap(digits);
  }

  lemma SlotRoundTrip(slot: int)
    ensures ParseSlot(PrintSlot(slot)) == Some(slot)
    ensures PrintSlot(slot) != "" && AllSlotChars(PrintSlot(slot))
  {
    if slot != 0 {
      var digits := PrintInt(slot);
      ParsePrintInt(slot);
      DigitsAreSlotChars(slot);
      TileIsRead(digits);
      assert "Tile "[0] == 'T';
    }
  }

  // ----- a board comes back --------------------------------------------------------------------

  lemma {:induction false} FindSkips(a: string, x: string, sep: string, i: nat)
    requires i <= |a| && sep != "" && sep[0] !in a && a <= x
    requires |a| == |x| || StartsWith(x, |a|, sep)
    ensures Find(x, sep, i) == |a|
    decreases |a| - i
  {
    if i < |a| {
      StartsFirst(x, i, sep);
      assert a[i] in a;
      FindSkips(a, x, sep, i + 1);
    }
  }

  lemma {:induction false} SplitJoin(parts: seq<string>, sep: string)
    requires parts != [] && sep != "" && forall p | p in parts :: sep[0] !in p
    ensures SplitOn(Join(parts, sep), sep) == parts
  {
    var a, x := parts[0], Join(parts, sep);
    assert a in parts;
    if |parts| == 1 {
      FindSkips(a, x, sep, 0);
    } else {
      var rest := Join(parts[1..], sep);
      assert x[|a|..|a| + |sep|] == sep;
      FindSkips(a, x, sep, 0);
      assert x[..|a|] == a && x[|a| + |sep|..] == rest;
      SplitJoin(parts[1..], sep);
    }
  }

  lemma {:induction false} SlotsRoundTrip(board: seq<int>)
    ensures ParseSlots(PrintSlots(board)) == Some(board)
    ensures forall p | p in PrintSlots(board) :: p != "" && AllSlotChars(p)
  {
    if board != [] {
      SlotRoundTrip(board[0]);
      SlotsRoundTrip(board[1..]);
      assert PrintSlots(board)[1..] == PrintSlots(board[1..]);
      assert [board[0]] + board[1..] == board;
    }
  }

  /** A joined list of slots begins and ends with a slot character. */
  lemma {:induction false} JoinEnds(parts: seq<string>)
    requires parts != [] && forall p | p in parts :: p != "" && AllSlotChars(p)
    ensures var x := Join(parts, ", "); x != "" && IsSlotChar(x[0]) && IsSlotChar(x[|x| - 1])
  {
    assert parts[0] in parts;
    if |parts| > 1 {
      assert forall p | p in parts[1..] :: p in parts;
      JoinEnds(parts[1..]);
    }
  }

  lemma BracketsComeOff(x: string)
    requires x != "" && IsSlotChar(x[0]) && IsSlotChar(x[|x| - 1])
    ensures StripBrackets("[" + x + "]") == x
  {
    var s := "[" + x + "]";
    var t := x + "]";
    assert s[0] == '[' && s[1..] == t;
    assert t[0] == x[0] && t[|t| - 1] == ']' && t[..|t| - 1] == x;
    assert StripBrackets(x) == x;
    assert StripBrackets(t) == x;
  }

  lemma ExampleSlots()
    ensures PrintSlot(3) == "Tile 3" && PrintSlot(0) == "Gap" && PrintSlot(12) == "Tile 12"
  {
    assert PrintNat(1) == "1" && PrintInt(3) == "3" && PrintInt(12) == "12";
  }

  /** The text of a small board. */
  lemma ExampleText()
    ensures PrintBoard([3, 0, 12]) == "[Tile 3, Gap, Tile 12]"
  {
    hide PrintSlot;
    ExampleSlots();
    assert [3, 0, 12][1..] == [0, 12] && [0, 12][1..] == [12];
    assert PrintSlots([12]) == ["Tile 12"] && PrintSlots([0, 12]) == ["Gap", "Tile 12"];
    var parts := ["Tile 3", "Gap", "Tile 12"];
    assert PrintSlots([3, 0, 12]) == parts;
    assert parts[1..] == ["Gap", "Tile 12"] && parts[1..][1..] == ["Tile 12"];
    assert Join(parts[1..], ", ") == "Gap, Tile 12";
  }

  lemma EmptyBoardFails()
    ensures ParseBoard(PrintBoard([])) == None
  {
    assert PrintBoard([]) == "[]" && "[]"[1..] == "]" && "]"[1..] == "";
    assert StripBrackets("[]") == "";
    assert SplitOn("", ", ") == [""];
    assert ParseSlot("") == None;
  }

  /** A board comes back from its text exactly when it is not empty. */
  lemma BoardRoundTrip(board: seq<int>)
    ensures ParseBoard(PrintBoard(board)) == Some(board) <==> board != []
  {
    var parts := PrintSlots(board);
    if board == [] {
      EmptyBoardFails();
    } else {
      SlotsRoundTrip(board);
      JoinEnds(parts);
      BracketsComeOff(Join(parts, ", "));
      SplitJoin(parts, ", ");
    }
  }

  lemma OneIsRead()
    ensures ParseInt("1") == Some(1) && NoSpace("1")
  {
    ParsePrintInt(1);
    assert PrintInt(1) == "1";
  }

  lemma {:induction false} ReplaceAfter(a: string, target: string, replacement: string)
    requires target != "" && target[0] !in a
    ensures Replace(a + target, target, replacement) == a + replacement
  {
    var x := a + target;
    if a == "" {
      assert x[0..|target|] == target && x[|target|..] == "";
      assert Replace("", target, replacement) == "";
    } else {
      StartsFirst(x, 0, target);
      assert x[1..] == a[1..] + target;
      ReplaceAfter(a[1..], target, replacement);
      assert [x[0]] + (a[1..] + replacement) == a + replacement;
    }
  }

  /** Isabelle may spell the tile 1 as `Suc 0`; it is read as 1. */
  lemma SucZeroIsOne()
    ensures ParseSlot("Tile " + "(Suc 0)") == Some(1)
  {
    var suc := "(Suc 0)";
    TileIsWord();
    OneIsRead();
    hide Replace, Words, ParseInt, ParseSlot, IsSpace;
    ReplaceAfter("Tile ", suc, "1");
    TwoWords("Tile", "1");
    assert "Tile " + "1" == "Tile" + " " + "1";
    TileIsNoGap(suc);
  }
}

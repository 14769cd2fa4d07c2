/** Comma-separated lists in the settings: `_parse_csv` behind the `strip_strings` validator. */
module CsvLists {
  import opened Texts
  import opened Wrappers

  // The raw value of a list field: unset, a string, a list already, or something else.
  datatype Value = Unset | Text(text: string) | Items(items: seq<string>) | Other

  // The characters that Python's str.strip removes.
  predicate IsSpace(c: char) {
    var n := c as int;
    || 9 <= n <= 13 || 28 <= n <= 32 || n == 0x85 || n == 0xA0 || n == 0x1680 || 0x2000 <= n <= 0x200A
    || n == 0x2028 || n == 0x2029 || n == 0x202F || n == 0x205F || n == 0x3000
  }

  function StripLeft(s: string): string {
    if s != "" && IsSpace(s[0]) then StripLeft(s[1..]) else s
  }

  function StripRight(s: string): string {
    if s != "" && IsSpace(s[|s| - 1]) then StripRight(s[..|s| - 1]) else s
  }

  function Strip(s: string): string {
    StripRight(StripLeft(s))
  }

  function StripStrings(value: Value): Value {
    match value
    case Text(text) => if Strip(text) == "" then Unset else Text(Strip(text))
    case _ => value
  }

  function SplitAt(s: string, c: char): seq<string>
    decreases |s|
  {
    var i := IndexOf(s, c);
    if i == |s| then [s] else [s[..i]] + SplitAt(s[i + 1..], c)
  }

  // The stripped pieces that are not empty.
  function Kept(pieces: seq<string>): seq<string> {
    if pieces == [] then []
    else (if Strip(pieces[0]) == "" then [] else [Strip(pieces[0])]) + Kept(pieces[1..])
  }

  function ItemsOf(s: string): seq<string> {
    Kept(SplitAt(s, ','))
  }

  function ParseCsv(value: Value): Result<seq<string>, string> {
    match value
    case Unset => Success([])
    case Text(text) => Success(ItemsOf(text))
    case Items(items) => Success(items)
    case Other => Failure("must be a comma-separated string")
  }

  // The printer: the items with commas between them.
  function Join(items: seq<string>): string {
    if items == [] then ""
    else if |items| == 1 then items[0]
    else items[0] + "," + Join(items[1..])
  }

  predicate CommaFree(s: string) {
    forall i :: 0 <= i < |s| ==> s[i] != ','
  }

  predicate IsItem(s: string) {
    s != "" && Strip(s) == s && CommaFree(s)
  }

  // ----- Stripping -----

  lemma {:induction false} StripLeftShape(s: string)
    ensures var t := StripLeft(s);
            && |t| <= |s| && t == s[|s| - |t|..] && (t != "" ==> !IsSpace(t[0]))
  {
    if s != "" && IsSpace(s[0]) {
      StripLeftShape(s[1..]);
    }
  }

  lemma {:induction false} StripRightShape(s: string)
    ensures var t := StripRight(s);
            && |t| <= |s| && t == s[..|t|] && (t != "" ==> !IsSpace(t[|t| - 1]))
  {
    if s != "" && IsSpace(s[|s| - 1]) {
      StripRightShape(s[..|s| - 1]);
    }
  }

  /** A stripped text has no space at either end, so stripping it again changes nothing. */
  lemma StripTwice(s: string)
    ensures Strip(Strip(s)) == Strip(s)
    ensures CommaFree(s) ==> CommaFree(Strip(s))
  {
    StripLeftShape(s);
    StripRightShape(StripLeft(s));
    var t := Strip(s);
    assert t != "" ==> t[0] == StripLeft(s)[0];
  }

  lemma StripFront(c: char, s: string)
    requires IsSpace(c)
    ensures Strip([c] + s) == Strip(s)
  {
    assert ([c] + s)[1..] == s;
  }

  lemma {:induction false} StripLeftThen(s: string, c: char)
    requires IsSpace(c)
    ensures StripLeft(s + [c]) == if StripLeft(s) == "" then "" else StripLeft(s) + [c]
  {
    if s == "" {
      assert StripLeft([c]) == StripLeft([c][1..]);
      assert s + [c] == [c];
    } else {
      assert (s + [c])[1..] == s[1..] + [c];
      StripLeftThen(s[1..], c);
    }
  }

  lemma StripBack(s: string, c: char)
    requires IsSpace(c)
    ensures Strip(s + [c]) == Strip(s)
  {
    StripLeftThen(s, c);
    var t := StripLeft(s);
    assert (t + [c])[..|t|] == t;
  }

  // ----- A space at either end of the whole text does not matter -----

  lemma SplitFront(c: char, s: string)
    requires c != ','
    ensures var pieces := SplitAt(s, ',');
            pieces != [] && SplitAt([c] + s, ',') == [[c] + pieces[0]] + pieces[1..]
  {
    var t, i := [c] + s, IndexOf(s, ',');
    assert t[1..] == s;
    assert IndexOf(t, ',') == i + 1;
    assert t[..i + 1] == [c] + s[..i];
    if i < |s| {
      assert t[i + 2..] == s[i + 1..];
    }
  }

  lemma ItemsFront(c: char, s: string)
    requires IsSpace(c)
    ensures ItemsOf([c] + s) == ItemsOf(s)
  {
    SplitFront(c, s);
    StripFront(c, SplitAt(s, ',')[0]);
  }

  lemma IndexBack(s: string, c: char)
    requires c != ','
    ensures IndexOf(s + [c], ',') == if IndexOf(s, ',') == |s| then |s| + 1 else IndexOf(s, ',')
  {
    var t := s + [c];
    var i, j := IndexOf(s, ','), IndexOf(t, ',');
    assert forall k :: 0 <= k < |s| ==> t[k] == s[k];
    assert t[|s|] == c;
  }

  lemma OnePiece(s: string)
    requires IndexOf(s, ',') == |s|
    ensures ItemsOf(s) == if Strip(s) == "" then [] else [Strip(s)]
  {
    hide Strip, IndexOf;
    assert SplitAt(s, ',') == [s];
    OnePieceMore(s, []);
    assert [s] + [] == [s];
  }

  lemma {:induction false} ItemsBack(s: string, c: char)
    requires IsSpace(c)
    ensures ItemsOf(s + [c]) == ItemsOf(s)
    decreases |s|
  {
    hide Strip;
    var t, i := s + [c], IndexOf(s, ',');
    IndexBack(s, c);
    if i == |s| {
      StripBack(s, c);
      OnePiece(s);
      OnePiece(t);
    } else {
      assert t[..i] == s[..i] && t[i + 1..] == s[i + 1..] + [c];
      ItemsBack(s[i + 1..], c);
      OnePieceMore(s[..i], SplitAt(s[i + 1..], ','));
      OnePieceMore(s[..i], SplitAt(s[i + 1..] + [c], ','));
    }
  }

  lemma OnePieceMore(piece: string, pieces: seq<string>)
    ensures Kept([piece] + pieces) == (if Strip(piece) == "" then [] else [Strip(piece)]) + Kept(pieces)
  {
    assert ([piece] + pieces)[1..] == pieces;
  }

  lemma {:induction false} ItemsStripLeft(s: string)
    ensures ItemsOf(StripLeft(s)) == ItemsOf(s)
  {
    if s != "" && IsSpace(s[0]) {
      ItemsStripLeft(s[1..]);
      assert s == [s[0]] + s[1..];
      ItemsFront(s[0], s[1..]);
    }
  }

  lemma {:induction false} ItemsStripRight(s: string)
    ensures ItemsOf(StripRight(s)) == ItemsOf(s)
  {
    if s != "" && IsSpace(s[|s| - 1]) {
      var t := s[..|s| - 1];
      ItemsStripRight(t);
      assert s == t + [s[|s| - 1]];
      ItemsBack(t, s[|s| - 1]);
    }
  }

  /** The validator that runs before the parser does not change what is parsed. */
  lemma StripStringsIsTransparent(value: Value)
    ensures ParseCsv(StripStrings(value)) == ParseCsv(value)
  {
    if value.Text? {
      var s := value.text;
      ItemsStripLeft(s);
      ItemsStripRight(StripLeft(s));
      if Strip(s) == "" {
        assert ItemsOf("") == [];
      }
    }
  }

  // ----- Printing and parsing -----

  lemma {:induction false} KeptAreItems(pieces: seq<string>)
    requires forall i :: 0 <= i < |pieces| ==> CommaFree(pieces[i])
    ensures forall i :: 0 <= i < |Kept(pieces)| ==> IsItem(Kept(pieces)[i])
  {
    if pieces != [] {
      StripTwice(pieces[0]);
      KeptAreItems(pieces[1..]);
    }
  }

  lemma {:induction false} PiecesAreCommaFree(s: string)
    ensures forall i :: 0 <= i < |SplitAt(s, ',')| ==> CommaFree(SplitAt(s, ',')[i])
    decreases |s|
  {
    var i := IndexOf(s, ',');
    if i < |s| {
      PiecesAreCommaFree(s[i + 1..]);
    }
  }

  /** Every parsed item is non-empty, trimmed and free of commas. */
  lemma ParsedAreItems(s: string)
    ensures forall i :: 0 <= i < |ItemsOf(s)| ==> IsItem(ItemsOf(s)[i])
  {
    PiecesAreCommaFree(s);
    KeptAreItems(SplitAt(s, ','));
  }

  lemma IndexBehindItem(item: string, rest: string)
    requires CommaFree(item)
    ensures IndexOf(item, ',') == |item|
    ensures IndexOf(item + "," + rest, ',') == |item|
  {
    var t := item + "," + rest;
    assert t[|item|] == ',';
    assert forall k :: 0 <= k < |item| ==> t[k] == item[k];
  }

  /** Printing a list of items and parsing the text gives the list back. */
  lemma {:induction false} ParsePrinted(items: seq<string>)
    requires forall i :: 0 <= i < |items| ==> IsItem(items[i])
    ensures ItemsOf(Join(items)) == items
  {
    hide Strip;
    if items == [] {
      NothingInNothing();
    } else {
      var item := items[0];
      if |items| == 1 {
        IndexBehindItem(item, "");
        OnePiece(item);
      } else {
        var rest := Join(items[1..]);
        IndexBehindItem(item, rest);
        var s := item + "," + rest;
        assert s[..|item|] == item && s[|item| + 1..] == rest;
        ParsePrinted(items[1..]);
        OnePieceMore(item, SplitAt(rest, ','));
      }
    }
  }

  lemma NothingInNothing()
    ensures ItemsOf("") == []
  {
  }

  /** Parsing, printing and parsing again is parsing once: the printed list is a normal form. */
  lemma PrintedListIsNormalForm(s: string)
    ensures ItemsOf(Join(ItemsOf(s))) == ItemsOf(s)
  {
    ParsedAreItems(s);
    ParsePrinted(ItemsOf(s));
  }

  // ----- What is parsed, case by case -----

  predicate IsBlank(s: string) {
    forall i :: 0 <= i < |s| ==> IsSpace(s[i])
  }

  // No space at either end.
  predicate IsTrimmed(s: string) {
    s != "" ==> !IsSpace(s[0]) && !IsSpace(s[|s| - 1])
  }

  lemma {:induction false} BlankFront(blank: string, s: string)
    requires IsBlank(blank)
    ensures StripLeft(blank + s) == StripLeft(s)
  {
    if blank == "" {
      assert blank + s == s;
    } else {
      assert (blank + s)[1..] == blank[1..] + s;
      BlankFront(blank[1..], s);
    }
  }

  lemma {:induction false} BlankBack(s: string, blank: string)
    requires IsBlank(blank)
    ensures StripRight(s + blank) == StripRight(s)
  {
    if blank == "" {
      assert s + blank == s;
    } else {
      var n := |blank| - 1;
      assert (s + blank)[..|s + blank| - 1] == s + blank[..n];
      BlankBack(s, blank[..n]);
    }
  }

  /** Stripping removes the spaces at both ends and nothing else. */
  lemma StripIs(left: string, text: string, right: string)
    requires IsBlank(left) && IsBlank(right) && IsTrimmed(text)
    ensures Strip(left + text + right) == text
  {
    assert left + text + right == left + (text + right);
    BlankFront(left, text + right);
    if text == "" {
      assert text + right == right && right + "" == right;
      BlankFront(right, "");
    } else {
      assert StripLeft(text + right) == text + right;
      BlankBack(text, right);
    }
  }

  lemma {:induction false} KeptAppend(a: seq<string>, b: seq<string>)
    ensures Kept(a + b) == Kept(a) + Kept(b)
  {
    if a == [] {
      assert a + b == b;
    } else {
      assert (a + b)[1..] == a[1..] + b;
      KeptAppend(a[1..], b);
    }
  }

  lemma {:induction false} SplitAppend(a: string, b: string)
    ensures SplitAt(a + "," + b, ',') == SplitAt(a, ',') + SplitAt(b, ',')
    decreases |a|
  {
    hide IndexOf;
    var s, i := a + "," + b, IndexOf(a, ',');
    assert s == a[..i] + "," + s[i + 1..];
    IndexBehindItem(a[..i], s[i + 1..]);
    assert s[..i] == a[..i];
    if i == |a| {
      assert s[i + 1..] == b && a[..i] == a;
    } else {
      assert s[i + 1..] == a[i + 1..] + "," + b;
      SplitAppend(a[i + 1..], b);
    }
  }

  /** A comma anywhere separates what is parsed on its own, and one piece gives its text without the spaces
      around it, or nothing; no value gives no items, a list is taken as it is, anything else is an error. */
  lemma ParseCsvIs(a: string, b: string, left: string, text: string, right: string, items: seq<string>)
    requires IsBlank(left) && IsBlank(right) && IsTrimmed(text) && CommaFree(left + text + right)
    ensures ParseCsv(Unset) == Success([]) && ParseCsv(Items(items)) == Success(items)
    ensures ParseCsv(Other) == Failure("must be a comma-separated string")
    ensures ParseCsv(Text(left + text + right)) == Success(if text == "" then [] else [text])
    ensures ParseCsv(Text(a)).Success? && ParseCsv(Text(b)).Success?
    ensures ParseCsv(Text(a + "," + b)) == Success(ParseCsv(Text(a)).value + ParseCsv(Text(b)).value)
  {
    hide Strip, SplitAt, Kept;
    SplitAppend(a, b);
    KeptAppend(SplitAt(a, ','), SplitAt(b, ','));
    StripIs(left, text, right);
    IndexBehindItem(left + text + right, "");
    OnePiece(left + text + right);
  }

  /** The validator strips a text, makes a blank one unset, and leaves other values alone. */
  lemma StripStringsIs(value: Value, left: string, text: string, right: string)
    requires IsBlank(left) && IsBlank(right) && IsTrimmed(text)
    ensures StripStrings(Text(left + text + right)) == if text == "" then Unset else Text(text)
    ensures !value.Text? ==> StripStrings(value) == value
  {
    hide Strip;
    StripIs(left, text, right);
  }

  lemma BlankAndTrimmed()
    ensures IsBlank("") && IsBlank(" ") && IsBlank("\t\n") && IsTrimmed("") && IsTrimmed("a b") && IsTrimmed("c")
  {
  }

  /** For instance two items and a blank piece. */
  lemma TwoItems()
    ensures ParseCsv(Text(" a b,\t\n,c")) == Success(["a b", "c"])
  {
    hide ParseCsv, IsBlank, IsTrimmed;
    BlankAndTrimmed();
    assert " " + "a b" + "" == " a b" && "\t\n" + "" + "" == "\t\n" && "" + "c" + "" == "c";
    ParseCsvIs(" a b", "\t\n", " ", "a b", "", []);
    ParseCsvIs(" a b,\t\n", "c", "\t\n", "", "", []);
    ParseCsvIs("", "", "", "c", "", []);
    assert " a b,\t\n" + "," + "c" == " a b,\t\n,c" && " a b" + "," + "\t\n" == " a b,\t\n";
    assert ["a b"] + [] + ["c"] == ["a b", "c"];
  }
}

/** What the masker looks for and writes, in its own characters: the keywords, the order of the passes,
    one rewrite, texts in which there is nothing to rewrite, and capital letters. */
module MaskingCases {
  import opened Texts
  import opened Masking
  import opened MaskingFields
  import opened MaskingGuarantees
  import opened MaskingAssignment

  // The keywords as the documentation lists them.
  const WORDS: seq<string> :=
    ["password", "passwd", "secret", "token", "apikey", "api_key", "access_key", "client_secret"]

  /** The passes go through all the keywords with "=", then with ":", then with a space. */
  lemma PassesInOrder(a: nat, b: nat)
    requires a < 3 && b < 8
    ensures Passes() == 24 && Marker(8 * a + b) == WORDS[b] + [['=', ':', ' '][a]]
  {
    LoopMarker(a, b);
  }

  /** A key is sensitive if and only if one of the eight words is part of it, in either case. */
  lemma SensitiveWords(key: string)
    ensures ContainsKeyword(key) <==> exists word, i :: word in WORDS && At(Lower(key), word, i)
  {
    hide At;
    SensitiveIff(key);
    if word, i :| word in WORDS && At(Lower(key), word, i) {
      var k :| 0 <= k < 8 && WORDS[k] == word;
      assert KEYWORDS[k] == word;
    }
    if k, i :| 0 <= k < |KEYWORDS| && At(Lower(key), KEYWORDS[k], i) {
      assert WORDS[k] == KEYWORDS[k];
    }
  }

  // ----- One rewrite -----

  /** A rewrite puts three asterisks between the end of the first occurrence of the marker, in either
      case, and the next space, ampersand, comma or semicolon, or the end of the text. */
  lemma RewriteIs(s: string, marker: string, i: nat, e: nat)
    requires At(Lower(s), marker, i) && forall j :: 0 <= j < i ==> !At(Lower(s), marker, j)
    requires i + |marker| <= e <= |s| && (e < |s| ==> s[e] in " &,;")
    requires forall j :: i + |marker| <= j < e ==> s[j] !in " &,;"
    ensures Rewrite(s, marker) == s[..i + |marker|] + "***" + s[e..]
  {
    FirstIs(Lower(s), marker, i);
    assert forall c: char :: c in " &,;" <==> IsStop(c);
    assert StopFrom(s, i + |marker|) == e;
  }

  // ----- Texts without a value -----

  // A keyword stands at i, in either case, and a separator behind it.
  predicate IsAssignedAt(s: string, word: string, i: int) {
    0 <= i && word in WORDS && At(Lower(s), word, i) && i + |word| < |s| && s[i + |word|] in "=: "
  }

  lemma SeparatorIsNoLetter(c: char, d: char)
    ensures d == '=' || d == ':' || d == ' ' ==> (ToLower(c) == d <==> c == d)
  {
  }

  lemma MarkerAtIff(s: string, a: nat, b: nat, i: int)
    requires a < 3 && b < 8
    ensures At(Lower(s), Marker(8 * a + b), i) <==>
            At(Lower(s), WORDS[b], i) && i + |WORDS[b]| < |s| && s[i + |WORDS[b]|] == ['=', ':', ' '][a]
  {
    PassesInOrder(a, b);
    var w, m := WORDS[b], Marker(8 * a + b);
    assert m[..|w|] == w && m[|w|] == ['=', ':', ' '][a];
    if 0 <= i && i + |w| < |s| {
      SeparatorIsNoLetter(s[i + |w|], ['=', ':', ' '][a]);
      if At(Lower(s), m, i) {
        assert forall k :: 0 <= k < |w| ==> w[k] == m[k];
        assert m[|w|] == Lower(s)[i + |w|];
      }
    }
  }

  lemma {:induction false} HasMarkerMeansOccurs(s: string, n: nat) returns (q: nat)
    requires n <= Passes() && HasMarker(s, n)
    ensures q < n && Occurs(s, Marker(q))
  {
    hide Occurs, Marker;
    if Occurs(s, Marker(n - 1)) {
      q := n - 1;
    } else {
      q := HasMarkerMeansOccurs(s, n - 1);
    }
  }

  /** A marker is found if and only if some keyword has a separator behind it. */
  lemma HasMarkerIff(s: string)
    ensures HasMarker(s, Passes()) <==> exists word, i :: IsAssignedAt(s, word, i)
  {
    hide HasMarker, Marker, At;
    if HasMarker(s, Passes()) {
      var q := HasMarkerMeansOccurs(s, Passes());
      var i := FindFrom(Lower(s), Marker(q), 0);
      MarkerAtIff(s, q / 8, q % 8, i);
      assert IsAssignedAt(s, WORDS[q % 8], i);
    }
    if word, i :| IsAssignedAt(s, word, i) {
      var b: nat :| b < 8 && WORDS[b] == word;
      var a: nat := if s[i + |word|] == '=' then 0 else if s[i + |word|] == ':' then 1 else 2;
      MarkerAtIff(s, a, b, i);
      PassesInOrder(a, b);
      OccursMeansHasMarker(s, 8 * a + b, Passes());
    }
  }

  lemma MaskHasNoMarker()
    ensures !HasMarker("***", Passes()) && Split("***") == Only("***")
  {
    hide HasMarker, At, Lower, Split;
    HasMarkerIff("***");
    assert forall c: char :: c in "***" ==> c == '*';
    assert Flat(Only("***")) == "***";
    SplitIsUnique(Only("***"));
  }

  lemma FirstFieldIsNotDropped(t: Text)
    ensures !IsDropped(t, 0, Passes())
  {
  }

  /** A text comes back as three asterisks, whether it holds a keyword or not, if and only if no keyword in
      either case is followed by "=", ":" or a space. */
  lemma TextIsHiddenIff(s: string)
    ensures MaskedText(s) == "***" <==>
            forall word, i :: 0 <= i && word in WORDS && At(Lower(s), word, i) && i + |word| < |s| ==>
              s[i + |word|] !in "=: "
  {
    hide HasMarker, MaskedText, Split, IsDropped;
    HasMarkerIff(s);
    MaskHasNoMarker();
    assert Flat(Split(s)) == s;
    if !HasMarker(s, Passes()) {
      NoMarkerGivesMask(s);
      forall word, i | 0 <= i && word in WORDS && At(Lower(s), word, i) && i + |word| < |s|
        ensures s[i + |word|] !in "=: "
      {
        assert !IsAssignedAt(s, word, i);
      }
    } else if MaskedText(s) == "***" {
      MaskedTextStructure(s);
      DroppedIff(s, 0);
      FirstFieldIsNotDropped(Split(s));
    }
  }

  lemma NoMarkerGivesMask(s: string)
    requires !HasMarker(s, Passes())
    ensures MaskedText(s) == "***"
  {
    hide HasMarker;
  }

  /** For instance a text without any separator. */
  lemma TextWithoutSeparatorIsHidden(s: string)
    requires '=' !in s && ':' !in s && ' ' !in s
    ensures MaskedText(s) == "***"
  {
    hide MaskedText;
    assert forall j :: 0 <= j < |s| ==> s[j] !in "=: ";
    TextIsHiddenIff(s);
  }

  /** A raw token, without a keyword. */
  lemma RawTokenIsHidden()
    ensures MaskedText("eyJh.eyJz.c2ln") == "***"
  {
    hide MaskedText;
    TextWithoutSeparatorIsHidden("eyJh.eyJz.c2ln");
  }

  /** A keyword inside a word. */
  lemma BareKeywordIsHidden()
    ensures MaskedText("plain-secret-value") == "***"
  {
    hide MaskedText;
    TextWithoutSeparatorIsHidden("plain-secret-value");
  }

  // ----- Capital letters -----

  // The texts differ at most in the case of letters.
  predicate SameButCase(a: string, b: string) {
    && |a| == |b|
    && forall i :: 0 <= i < |a| ==>
         || a[i] == b[i]
         || ('A' <= a[i] <= 'Z' && b[i] as int == a[i] as int + 32)
         || ('A' <= b[i] <= 'Z' && a[i] as int == b[i] as int + 32)
  }

  lemma SameLower(a: string, b: string)
    ensures SameButCase(a, b) <==> |a| == |b| && Lower(a) == Lower(b)
  {
    if |a| == |b| && Lower(a) == Lower(b) {
      forall i | 0 <= i < |a|
        ensures ToLower(a[i]) == ToLower(b[i])
      {
        assert Lower(a)[i] == Lower(b)[i];
      }
    }
  }

  lemma SameStop(a: string, b: string, i: nat)
    requires SameButCase(a, b) && i <= |a|
    ensures StopFrom(a, i) == StopFrom(b, i)
  {
    var e := StopFrom(a, i);
    assert forall j :: i <= j < |a| ==> (IsStop(a[j]) <==> IsStop(b[j]));
  }

  lemma SameLength(a: string, b: string)
    requires SameButCase(a, b)
    ensures |a| == |b|
  {
  }

  lemma RewriteKeepsCase(a: string, b: string, marker: string)
    requires SameButCase(a, b)
    ensures SameButCase(Rewrite(a, marker), Rewrite(b, marker))
  {
    hide StopFrom, FindFrom, Lower, Hide, At, SameButCase;
    SameLower(a, b);
    SameLength(a, b);
    var index := FindFrom(Lower(a), marker, 0);
    if index >= 0 {
      SameStop(a, b, index + |marker|);
      HideKeepsCase(a, b, index + |marker|, StopFrom(a, index + |marker|));
    }
  }

  lemma HideKeepsCase(a: string, b: string, start: nat, end: nat)
    requires SameButCase(a, b) && start <= end <= |a|
    ensures SameButCase(Hide(a, start, end), Hide(b, start, end))
  {
    var n := start + |MASK|;
    forall i | 0 <= i < |Hide(a, start, end)|
      ensures var (x, y) := (Hide(a, start, end)[i], Hide(b, start, end)[i]);
              || x == y
              || ('A' <= x <= 'Z' && y as int == x as int + 32)
              || ('A' <= y <= 'Z' && x as int == y as int + 32)
    {
      if i < start {
        assert Hide(a, start, end)[i] == a[i] && Hide(b, start, end)[i] == b[i];
      } else if i >= n {
        assert Hide(a, start, end)[i] == a[i - n + end] && Hide(b, start, end)[i] == b[i - n + end];
      }
    }
  }

  lemma {:induction false} PassesKeepCase(a: string, b: string, n: nat)
    requires n <= Passes() && SameButCase(a, b)
    ensures SameButCase(After(a, n), After(b, n))
  {
    hide SameButCase, Rewrite, Marker;
    if n > 0 {
      PassesKeepCase(a, b, n - 1);
      RewriteKeepsCase(After(a, n - 1), After(b, n - 1), Marker(n - 1));
    }
  }

  /** Capital letters make no difference: texts that differ in the case of letters only are masked at the
      same places, and what is left of them differs in the case of letters only. */
  lemma CaseDoesNotMatter(a: string, b: string)
    requires SameButCase(a, b)
    ensures SameButCase(MaskedText(a), MaskedText(b))
  {
    hide Lower, FindFrom, After;
    SameLower(a, b);
    SameMarkers(a, b, Passes());
    PassesKeepCase(a, b, Passes());
  }

  lemma {:induction false} SameMarkers(a: string, b: string, n: nat)
    requires n <= Passes() && Lower(a) == Lower(b)
    ensures HasMarker(a, n) == HasMarker(b, n)
  {
    hide Lower, FindFrom, Marker;
    if n > 0 {
      SameMarkers(a, b, n - 1);
    }
  }
}

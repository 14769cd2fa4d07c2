/** What is looked for in the fields of the text that comes in: markers, where they end, keywords before a
    space; and how the first field with one is found. */
module MaskingConditions {
  import opened Masking
  import opened MaskingFields
  import opened MaskingTheorems
  import opened MaskingGuarantees

  // ----- Markers in a field -----

  // The field holds the marker, one of the sixteen with = or :.
  predicate Holds(f: string, q: nat) {
    IsInner(q) && Occurs(f, Marker(q))
  }

  // Where the first occurrence of the marker in the field ends.
  function End(f: string, q: nat): (o: nat)
    requires Holds(f, q)
    ensures 0 < o <= |f| && At(Lower(f), Marker(q), o - |Marker(q)|)
  {
    MarkerShape(q);
    FindFrom(Lower(f), Marker(q), 0) + |Marker(q)|
  }

  lemma HeldMarkerEnds(f: string, q: nat)
    requires Holds(f, q)
    ensures MarkerEnds(f, End(f, q))
  {
  }

  lemma HeldAt(f: string, q: nat, i: int)
    requires IsInner(q) && At(Lower(f), Marker(q), i)
    ensures Holds(f, q) && End(f, q) <= i + |Marker(q)|
  {
  }

  // The first occurrence in a cut field is the first one in the field as it came in.
  lemma FirstInKeptPart(f: string, g: string, q: nat)
    requires (g == f || Cut(f, g)) && Holds(g, q)
    ensures Holds(f, q) && End(f, q) == End(g, q) && g[..End(g, q)] == f[..End(f, q)]
  {
    var i := End(g, q) - |Marker(q)|;
    MarkerWasThere(f, g, q, i);
    HeldAt(f, q, i);
    if End(f, q) < End(g, q) {
      FirstStaysOrIsCut(f, g, q, End(f, q));
      HeldAt(g, q, End(f, q) - |Marker(q)|);
    }
  }

  // A marker in some field is a marker in the text.
  lemma HeldMeansHasMarker(value: string, k: nat, q: nat)
    requires k < Fields(Split(value)) && Holds(Field(Split(value), k), q)
    ensures HasMarker(value, Passes())
  {
    hide FindFrom, Marker, HasMarker, Present;
    FieldMarkerIsPresent(Split(value), q, k);
    PresentIffOccurs(Split(value), q);
    OccursMeansHasMarker(value, q, Passes());
  }

  // ----- Hidden values -----

  // The masked field keeps nothing of the field behind the first occurrence of the marker.  A
  // value that does not stand in the field, but behind a space, is not meant.
  predicate Hidden(f: string, g: string, q: nat)
    requires Holds(f, q)
  {
    CutWithin(f, g, End(f, q))
  }

  // The mask stands behind the marker already.
  lemma MaskedAlready(f: string, q: nat)
    requires Holds(f, q) && Cut(f, f)
    ensures End(f, q) <= |f| - |MASK|
  {
    MarkerWasThere(f, f, q, End(f, q) - |Marker(q)|);
  }

  // A value that is the mask already hides no marker behind it.
  lemma MaskedAlreadyAtEvery(f: string, m: nat)
    requires Holds(f, m) && Hidden(f, f, m)
    ensures forall q: nat :: Holds(f, q) ==> End(f, q) <= End(f, m)
  {
    forall q: nat | Holds(f, q)
      ensures End(f, q) <= End(f, m)
    {
      MaskedAlready(f, q);
    }
  }

  lemma CutWithinIff(f: string, o: nat, e: nat)
    requires o <= |f|
    ensures CutWithin(f, f[..o] + MASK, e) <==> o <= e
  {
    assert |f[..o] + MASK| - |MASK| == o;
  }

  lemma NoMarkerInMask(o: int)
    ensures !MarkerEnds(MASK, o)
  {
    if MarkerEnds(MASK, o) {
      MarkerEndsInSeparator(MASK, o);
    }
  }

  lemma SomeMarkerEnds(value: string, k: nat)
    requires k < Fields(Split(value)) && MarkerEnds(Field(Split(value), k), |Field(Split(value), k)|)
    ensures HasMarker(value, Passes())
  {
    hide HasMarker, Marker, At, FindFrom;
    var f := Field(Split(value), k);
    var q :| IsInner(q) && At(Lower(f), Marker(q), |f| - |Marker(q)|);
    HeldAt(f, q, |f| - |Marker(q)|);
    HeldMeansHasMarker(value, k, q);
  }

  // ----- Keywords before a space -----

  function StopAt(t: Text, k: nat): char
    requires k + 1 < Fields(t)
  {
    if k == 0 then t.stop else StopAt(t.rest, k - 1)
  }

  // Field k ends with the keyword, and a space separates it from the next field.
  predicate BeforeSpace(t: Text, k: nat, keyword: string)
    requires k < Fields(t)
  {
    k + 1 < Fields(t) && StopAt(t, k) == ' ' && EndsWith(Field(t, k), keyword)
  }

  lemma {:induction false} SameStopsAt(t: Text, u: Text, k: nat)
    requires SameStops(t, u) && k + 1 < Fields(t) && Fields(u) == Fields(t)
    ensures StopAt(t, k) == StopAt(u, k)
  {
    if k > 0 {
      SameStopsAt(t.rest, u.rest, k - 1);
    }
  }

  lemma {:induction false} FirstBeforeSpaceIff(u: Text, keyword: string, k: nat)
    requires k + 1 < Fields(u)
    ensures FirstBeforeSpace(u, keyword, k) <==>
            BeforeSpace(u, k, keyword) && forall j :: 0 <= j < k ==> !BeforeSpace(u, j, keyword)
  {
    hide EndsWith;
    if k > 0 {
      FirstBeforeSpaceIff(u.rest, keyword, k - 1);
      assert forall j :: 0 <= j < k - 1 ==> BeforeSpace(u, j + 1, keyword) == BeforeSpace(u.rest, j, keyword);
      assert BeforeSpace(u, 0, keyword) <==> u.stop == ' ' && EndsWith(u.field, keyword);
      assert forall j :: 0 < j < k ==> BeforeSpace(u, j, keyword) == BeforeSpace(u.rest, j - 1, keyword);
    }
  }

  lemma {:induction false} AfterKeywordIff(t: Text, k: nat)
    requires k < Fields(t)
    ensures AfterKeyword(t, k) <==> k > 0 && StopAt(t, k - 1) == ' ' && EndsWithKeyword(Field(t, k - 1))
  {
    hide EndsWithKeyword;
    if k > 1 {
      AfterKeywordIff(t.rest, k - 1);
    }
  }

  lemma EndsInWordChar(f: string, word: string)
    requires IsWord(word) && EndsWith(f, word)
    ensures IsWordChar(Lower(f)[|f| - 1])
  {
    assert Lower(f)[|f| - 1] == word[|word| - 1];
  }

  lemma MarkerAtEndIsNoKeyword(f: string)
    requires MarkerEnds(f, |f|)
    ensures !EndsWithKeyword(f)
  {
    MarkerEndsInSeparator(f, |f|);
    if EndsWithKeyword(f) {
      var k :| 0 <= k < |KEYWORDS| && EndsWith(f, KEYWORDS[k]);
      KeywordsAreWords(k);
      EndsInWordChar(f, KEYWORDS[k]);
    }
  }

  // ----- The field that a pass works on -----

  lemma InnerComesFirst(q: nat, p: nat)
    requires p <= q && IsInner(q)
    ensures IsInner(p)
  {
  }

  lemma {:induction false} FirstHolder(u: Text, marker: string) returns (found: bool, k: nat, o: nat)
    ensures found ==> k < Fields(u) && FirstAt(u, marker, k, o)
    ensures !found ==> CutField(u, marker) == u
    ensures !found ==> forall j :: 0 <= j < Fields(u) ==> !Occurs(Field(u, j), marker)
  {
    hide FindFrom;
    var index := FindFrom(Lower(u.field), marker, 0);
    if index >= 0 {
      found, k, o := true, 0, index + |marker|;
    } else if u.Then? {
      found, k, o := FirstHolder(u.rest, marker);
      k := k + 1;
      assert forall j :: 0 < j < Fields(u) ==> Field(u, j) == Field(u.rest, j - 1);
    } else {
      found, k, o := false, 0, 0;
    }
  }

  lemma {:induction false} FirstEnder(u: Text, keyword: string) returns (found: bool, k: nat)
    ensures found ==> k + 1 < Fields(u) && FirstBeforeSpace(u, keyword, k)
    ensures !found ==> DropField(u, keyword) == u
    ensures !found ==> forall j :: 0 <= j < Fields(u) ==> !BeforeSpace(u, j, keyword)
  {
    hide EndsWith;
    if u.Only? {
      found, k := false, 0;
    } else if u.stop == ' ' && EndsWith(u.field, keyword) {
      found, k := true, 0;
    } else {
      found, k := FirstEnder(u.rest, keyword);
      k := k + 1;
      assert forall j :: 0 < j < Fields(u) ==> BeforeSpace(u, j, keyword) == BeforeSpace(u.rest, j - 1, keyword);
    }
  }

  lemma {:induction false} DropFieldTouchesOne(u: Text, keyword: string, k: nat)
    requires k + 1 < Fields(u) && FirstBeforeSpace(u, keyword, k)
    ensures var v := DropField(u, keyword);
            && Fields(v) == Fields(u)
            && forall j :: 0 <= j < Fields(u) ==> Field(v, j) == if j == k + 1 then MASK else Field(u, j)
  {
    hide EndsWith;
    if k > 0 {
      DropFieldTouchesOne(u.rest, keyword, k - 1);
    }
  }
}

/** What the assignment of passes to fields comes to where it can be read off the text: markers that no
    earlier field holds, first occurrences, one assignment per field, keywords that stand alone. */
module MaskingExactness {
  import opened Masking
  import opened MaskingFields
  import opened MaskingTheorems
  import opened MaskingGuarantees
  import opened MaskingConditions
  import opened MaskingAssignment

  // ----- Markers that are new to the text -----

  // The field is the first one to hold the marker.
  ghost predicate IsFresh(t: Text, k: nat, q: nat)
    requires k < Fields(t)
  {
    Holds(Field(t, k), q) && forall i :: 0 <= i < k ==> !Holds(Field(t, i), q)
  }

  // Its pass takes the field, unless a marker before it has.
  lemma FreshIsTaken(t: Text, k: nat, q: nat)
    requires k < Fields(t) && IsFresh(t, k, q)
    ensures IsCutUpTo(t, k, q)
  {
    hide Occurs, Marker;
    if IsLeft(t, q, k) {
      TakenAtMostOnce(t, q, k);
      assert Cuts(t, q, k);
    } else {
      var p: nat :| p < q && Cuts(t, p, k) && End(Field(t, k), p) < End(Field(t, k), q);
    }
  }

  /** For every text: the value behind a marker that no earlier field holds is hidden. */
  lemma FreshMarkerHidesValue(value: string, k: nat, q: nat)
    requires k < Fields(Split(value)) && IsFresh(Split(value), k, q)
    ensures var t, u := Split(value), Split(MaskedText(value));
            Fields(u) == Fields(t) && CutWithin(Field(t, k), Field(u, k), End(Field(t, k), q))
  {
    hide Holds, CutWithin, MaskedText, IsCutUpTo, IsDropped;
    FreshIsTaken(Split(value), k, q);
    ValueIsHiddenIff(value, k, q);
  }

  lemma FirstIsFresh(t: Text, q: nat, k: nat, o: nat)
    requires IsInner(q) && k < Fields(t) && FirstAt(t, Marker(q), k, o)
    ensures IsFresh(t, k, q) && End(Field(t, k), q) == o
  {
    hide FirstAt, FindFrom, Marker, At;
    NoneBeforeFirst(t, Marker(q), k, o);
    FirstAtIsInField(t, Marker(q), k, o);
    HeldAt(Field(t, k), q, o - |Marker(q)|);
  }

  /** Coverage for = and :.  If the first occurrence of a marker in the text ends at offset o of
      field k, the result keeps at most the first o characters of that field. */
  lemma ValueBehindMarkerIsHidden(value: string, q: nat, k: nat, o: nat)
    requires IsInner(q) && Occurs(value, Marker(q))
    requires var t := Split(value);
             && k < Fields(t) && 0 < o <= |Field(t, k)|
             && FindFrom(Lower(value), Marker(q), 0) + |Marker(q)| == FieldStart(t, k) + o
    ensures var t, u := Split(value), Split(MaskedText(value));
            Fields(u) == Fields(t) && CutWithin(Field(t, k), Field(u, k), o)
  {
    hide Marker, CutWithin, FirstAt, FindFrom, At, MaskedText;
    InnerMarkerHasNoStops(q);
    FlatFirstIsFirstAt(Split(value), Marker(q), k, o);
    FirstIsFresh(Split(value), q, k, o);
    FreshMarkerHidesValue(value, k, q);
  }

  lemma CutWithinEarliestIsExact(f: string, g: string, q: nat, o: nat)
    requires FieldMasked(f, g, false) && CutWithin(f, g, o)
    requires IsInner(q) && o <= |f| && At(Lower(f), Marker(q), o - |Marker(q)|)
    requires forall e :: e < o ==> !MarkerEnds(f, e)
    ensures g == f[..o] + MASK
  {
    if g == f {
      MarkerWasThere(f, g, q, o - |Marker(q)|);
    }
  }

  /** A field whose earliest marker is the first of its kind in the text is cut right behind it. */
  lemma FieldIsCutAtItsFirstMarker(value: string, q: nat, k: nat, o: nat)
    requires IsInner(q) && Occurs(value, Marker(q))
    requires var t := Split(value);
             && k < Fields(t) && 0 < o <= |Field(t, k)| && !AfterKeyword(t, k)
             && FindFrom(Lower(value), Marker(q), 0) + |Marker(q)| == FieldStart(t, k) + o
             && forall e :: e < o ==> !MarkerEnds(Field(t, k), e)
    ensures var t, u := Split(value), Split(MaskedText(value));
            k < Fields(u) && Field(u, k) == Field(t, k)[..o] + MASK
  {
    hide HasMarker, MarkerEnds, AfterKeyword, FindFrom, At, Marker, FieldMasked, CutWithin, FirstAt;
    var t, u := Split(value), Split(MaskedText(value));
    OccursMeansHasMarker(value, q, Passes());
    MaskedTextStructure(value);
    ValueBehindMarkerIsHidden(value, q, k, o);
    InnerMarkerHasNoStops(q);
    FlatFirstIsFirstAt(t, Marker(q), k, o);
    FirstAtIsInField(t, Marker(q), k, o);
    CutWithinEarliestIsExact(Field(t, k), Field(u, k), q, o);
  }

  // No = or : marker is in two fields of the text.
  ghost predicate NoneRepeats(t: Text) {
    forall q: nat, i, j :: 0 <= i < j < Fields(t) ==> !(Holds(Field(t, i), q) && Holds(Field(t, j), q))
  }

  /** In a text of any kinds of markers, none of them in two fields, every value behind = or : that
      stands in the field of its marker is hidden. */
  lemma EveryValueIsHiddenWithoutRepeats(value: string, k: nat, q: nat)
    requires NoneRepeats(Split(value)) && k < Fields(Split(value)) && Holds(Field(Split(value), k), q)
    ensures var t, u := Split(value), Split(MaskedText(value));
            Fields(u) == Fields(t) && Hidden(Field(t, k), Field(u, k), q)
  {
    hide Holds, CutWithin, MaskedText;
    FreshMarkerHidesValue(value, k, q);
  }

  ghost predicate AllAreMasked(f: string) {
    forall q: nat :: Holds(f, q) ==> Hidden(f, f, q)
  }

  lemma AllTakenIffAllHeld(t: Text, k: nat)
    requires k < Fields(t) && NoneRepeats(t)
    ensures (forall q: nat :: q < Passes() && Cuts(t, q, k) ==> Hidden(Field(t, k), Field(t, k), q)) <==>
            AllAreMasked(Field(t, k))
  {
    hide Holds, Takes, CutWithin;
    if forall q: nat :: q < Passes() && Cuts(t, q, k) ==> Hidden(Field(t, k), Field(t, k), q) {
      forall q: nat | Holds(Field(t, k), q)
        ensures Hidden(Field(t, k), Field(t, k), q)
      {
        assert IsFresh(t, k, q);
        FreshIsTaken(t, k, q);
        HiddenUpTo(t, k, q);
      }
    }
  }

  /** Where no marker repeats, the field behind one that ends with a marker is left as it is, if and only if it
      holds no marker with a value other than the mask. */
  lemma SeparatedValueStaysWithoutRepeats(value: string, k: nat)
    requires k + 1 < Fields(Split(value)) && MarkerEnds(Field(Split(value), k), |Field(Split(value), k)|)
    requires NoneRepeats(Split(value))
    ensures var t, u := Split(value), Split(MaskedText(value));
            && Fields(u) == Fields(t)
            && (Field(u, k + 1) == Field(t, k + 1) <==> AllAreMasked(Field(t, k + 1)))
  {
    hide Holds, MarkerEnds, MaskedText, Cuts, Hidden, NoneRepeats, AllAreMasked;
    SeparatedValueStaysIff(value, k);
    AllTakenIffAllHeld(Split(value), k + 1);
  }

  lemma HiddenUpTo(t: Text, k: nat, m: nat)
    requires k < Fields(t) && Holds(Field(t, k), m) && IsCutUpTo(t, k, m)
    requires forall q: nat :: q < Passes() && Cuts(t, q, k) ==> Hidden(Field(t, k), Field(t, k), q)
    ensures Hidden(Field(t, k), Field(t, k), m)
  {
    hide Takes, Holds, Cut;
  }

  // ----- Markers that come first where they are shared -----

  // No other marker of the field ends before this one.
  ghost predicate Leads(f: string, q: nat) {
    Holds(f, q) && forall e :: e < End(f, q) ==> !MarkerEnds(f, e)
  }

  // A marker that this field shares with an earlier one comes first there.
  ghost predicate SharedMarkersLead(t: Text, k: nat)
    requires k < Fields(t)
  {
    forall i, q: nat :: 0 <= i < k && Holds(Field(t, i), q) && Holds(Field(t, k), q) ==> Leads(Field(t, i), q)
  }

  // A marker that comes first in a field is left there.
  lemma LeaderIsLeft(t: Text, i: nat, q: nat)
    requires i < Fields(t) && Leads(Field(t, i), q)
    ensures IsLeft(t, q, i)
  {
    hide MarkerEnds, Occurs, Marker, Takes;
    forall p: nat | p < q && Cuts(t, p, i)
      ensures End(Field(t, i), q) <= End(Field(t, i), p)
    {
      HeldMarkerEnds(Field(t, i), p);
    }
  }

  lemma TakenIsFresh(t: Text, k: nat, q: nat)
    requires k < Fields(t) && q < Passes() && SharedMarkersLead(t, k) && Cuts(t, q, k)
    ensures IsFresh(t, k, q)
  {
    hide Holds, Leads, IsLeft;
    forall i | 0 <= i < k && Holds(Field(t, i), q)
      ensures false
    {
      assert Takes(t, q, k);
      LeaderIsLeft(t, i, q);
    }
  }

  // Some marker up to this one is held by no earlier field.
  ghost predicate IsFreshUpTo(t: Text, k: nat, m: nat)
    requires k < Fields(t) && Holds(Field(t, k), m)
  {
    exists q: nat :: IsFresh(t, k, q) && End(Field(t, k), q) <= End(Field(t, k), m)
  }

  lemma CutIffFresh(t: Text, k: nat, m: nat)
    requires k < Fields(t) && SharedMarkersLead(t, k) && Holds(Field(t, k), m)
    ensures IsCutUpTo(t, k, m) <==> IsFreshUpTo(t, k, m)
  {
    hide Holds, SharedMarkersLead, Takes;
    if q: nat :| q < Passes() && Cuts(t, q, k) && End(Field(t, k), q) <= End(Field(t, k), m) {
      TakenIsFresh(t, k, q);
    }
    if q: nat :| IsFresh(t, k, q) && End(Field(t, k), q) <= End(Field(t, k), m) {
      FreshIsTaken(t, k, q);
    }
  }

  // One assignment per field: all the markers of a field end at one place.
  ghost predicate IsOneAssignment(f: string) {
    forall d, e :: MarkerEnds(f, d) && MarkerEnds(f, e) ==> d == e
  }

  lemma OneAssignmentPerField(t: Text, k: nat)
    requires k < Fields(t) && forall i :: 0 <= i < k ==> IsOneAssignment(Field(t, i))
    ensures SharedMarkersLead(t, k)
  {
    hide MarkerEnds, Holds;
    forall i, q: nat | 0 <= i < k && Holds(Field(t, i), q)
      ensures Leads(Field(t, i), q)
    {
      HeldMarkerEnds(Field(t, i), q);
      assert IsOneAssignment(Field(t, i));
    }
  }

  // ----- Keywords before a space that stand alone -----

  // Nothing in the text gives a reason to change the field.
  ghost predicate IsSteady(t: Text, k: nat)
    requires k < Fields(t)
  {
    !AfterKeyword(t, k) && forall o :: !MarkerEnds(Field(t, k), o)
  }

  // The keywords before a space, up to this field, stand in fields that nothing else changes.
  ghost predicate KeywordsAreSteady(t: Text, k: nat)
    requires k < Fields(t)
  {
    forall j, i :: 0 <= j < k && 0 <= i < |KEYWORDS| && BeforeSpace(t, j, KEYWORDS[i]) ==> IsSteady(t, j)
  }

  // The field follows a keyword and a space that no earlier field ends with.
  ghost predicate IsFreshBehindSpace(t: Text, k: nat)
    requires k < Fields(t)
  {
    k > 0 && exists i :: 0 <= i < |KEYWORDS| && BeforeSpace(t, k - 1, KEYWORDS[i])
                         && forall j :: 0 <= j < k - 1 ==> !BeforeSpace(t, j, KEYWORDS[i])
  }

  lemma DropsBehindSpace(t: Text, q: nat, k: nat)
    requires q < Passes() && k < Fields(t) && Drops(t, q, k)
    ensures k > 0 && BeforeSpace(t, k - 1, Keyword(q)) && IsLeft(t, q, k - 1) && AfterKeyword(t, k)
    ensures forall j :: 0 <= j < k - 1 ==> !IsLeft(t, q, j)
  {
    hide EndsWith, BeforeSpace, IsDropped, IsCut;
    assert Takes(t, q, k - 1);
    LeftIffUntouched(t, q, k - 1);
    KeywordEnds(t, k, q);
  }

  lemma KeywordEnds(t: Text, k: nat, q: nat)
    requires q < Passes() && 0 < k < Fields(t) && BeforeSpace(t, k - 1, Keyword(q))
    ensures AfterKeyword(t, k)
  {
    hide EndsWith;
    assert Keyword(q) == KEYWORDS[q % |KEYWORDS|];
    AfterKeywordIff(t, k);
  }

  lemma SteadyIsLeft(t: Text, q: nat, j: nat)
    requires q < Passes() && !IsInner(q) && j < Fields(t) && IsSteady(t, j) && BeforeSpace(t, j, Keyword(q))
    ensures IsLeft(t, q, j)
  {
    hide BeforeSpace, AfterKeyword, MarkerEnds, Keyword;
    LeftIffUntouched(t, q, j);
    if p: nat :| p < q && Drops(t, p, j) {
      DropsBehindSpace(t, p, j);
    }
    if p: nat :| p < q && Cuts(t, p, j) {
      HeldMarkerEnds(Field(t, j), p);
    }
  }

  lemma DroppedIffFresh(t: Text, k: nat)
    requires k < Fields(t) && KeywordsAreSteady(t, k)
    ensures IsDropped(t, k, Passes()) <==> IsFreshBehindSpace(t, k)
  {
    hide BeforeSpace, IsSteady, IsLeft, Cuts;
    if q: nat :| q < Passes() && Drops(t, q, k) {
      DropsBehindSpace(t, q, k);
      var i := q % |KEYWORDS|;
      forall j | 0 <= j < k - 1
        ensures !BeforeSpace(t, j, KEYWORDS[i])
      {
        if BeforeSpace(t, j, KEYWORDS[i]) {
          SteadyIsLeft(t, q, j);
        }
      }
    }
    if IsFreshBehindSpace(t, k) {
      var i :| 0 <= i < |KEYWORDS| && BeforeSpace(t, k - 1, KEYWORDS[i])
               && forall j :: 0 <= j < k - 1 ==> !BeforeSpace(t, j, KEYWORDS[i]);
      var q := KeywordWithSpace(i);
      SteadyIsLeft(t, q, k - 1);
      FirstLeftDrops(t, q, k);
    }
  }

  lemma KeywordWithSpace(i: nat) returns (q: nat)
    requires i < |KEYWORDS|
    ensures q < Passes() && Keyword(q) == KEYWORDS[i] && Separator(q) == ' '
  {
    q := 2 * |KEYWORDS| + i;
  }

  // The keyword is left in this field and ends no earlier one before a space.
  lemma FirstLeftDrops(t: Text, q: nat, k: nat)
    requires q < Passes() && !IsInner(q) && 0 < k < Fields(t) && IsLeft(t, q, k - 1)
    requires forall j :: 0 <= j < k - 1 ==> !BeforeSpace(t, j, Keyword(q))
    ensures Drops(t, q, k) && IsDropped(t, k, Passes())
  {
    hide BeforeSpace, IsCut, Keyword;
    forall j | 0 <= j < k - 1
      ensures !IsLeft(t, q, j)
    {
      LeftIffUntouched(t, q, j);
    }
    assert Takes(t, q, k - 1);
    assert Drops(t, q, k);
  }

  /** The space, read off the text: a field ends as the bare mask if and only if it was the mask, or follows a
      keyword and a space that no earlier field ends with. */
  lemma SteadyDroppedIff(value: string, k: nat)
    requires HasMarker(value, Passes()) && k < Fields(Split(value)) && KeywordsAreSteady(Split(value), k)
    ensures var t, u := Split(value), Split(MaskedText(value));
            && Fields(u) == Fields(t)
            && (Field(u, k) == MASK <==> Field(t, k) == MASK || IsFreshBehindSpace(t, k))
  {
    hide HasMarker, MaskedText, IsDropped, KeywordsAreSteady, IsFreshBehindSpace;
    DroppedIff(value, k);
    DroppedIffFresh(Split(value), k);
  }

  // A field that ends with a keyword after the passes is one that none of them took.
  lemma KeptIsUntouched(t: Text, k: nat, word: string)
    requires k < Fields(t) && IsResult(t, k, Field(t, k), Passes()) && IsWord(word) && EndsWith(Field(t, k), word)
    ensures !IsDropped(t, k, Passes()) && !IsCut(t, k, Passes())
  {
    hide IsDropped, IsCut, EndsWith, IsResult;
    if IsDropped(t, k, Passes()) || IsCut(t, k, Passes()) {
      TakenFieldEndsInNoKeyword(t, k, Field(t, k), Passes(), word);
    }
  }

  lemma UntouchedIsLeft(t: Text, q: nat, k: nat)
    requires q < Passes() && !IsInner(q) && k < Fields(t) && BeforeSpace(t, k, Keyword(q))
    requires !IsDropped(t, k, Passes()) && !IsCut(t, k, Passes())
    ensures IsLeft(t, q, k)
  {
    hide BeforeSpace, Cuts, Drops, Keyword;
    LeftIffUntouched(t, q, k);
  }

  /** For every text: the field behind a keyword and a space that no earlier field ends with is dropped, if the
      field with the keyword is kept. */
  lemma FreshKeywordDropsValue(value: string, k: nat)
    requires HasMarker(value, Passes()) && k < Fields(Split(value)) && IsFreshBehindSpace(Split(value), k)
    requires var u := Split(MaskedText(value));
             k <= Fields(u) && Field(u, k - 1) == Field(Split(value), k - 1)
    ensures var u := Split(MaskedText(value));
            k < Fields(u) && Field(u, k) == MASK
  {
    hide HasMarker, MaskedText, IsDropped, IsCut, IsLeft, EndsWith, IsWord;
    var t := Split(value);
    var i :| 0 <= i < |KEYWORDS| && BeforeSpace(t, k - 1, KEYWORDS[i])
             && forall j :: 0 <= j < k - 1 ==> !BeforeSpace(t, j, KEYWORDS[i]);
    var q := KeywordWithSpace(i);
    FieldIsExact(value, k - 1);
    KeywordsAreWords(i);
    KeptIsUntouched(t, k - 1, KEYWORDS[i]);
    UntouchedIsLeft(t, q, k - 1);
    FirstLeftDrops(t, q, k);
    FieldIsExact(value, k);
  }

  lemma CutBeforeKeywordEnd(f: string, q: nat, word: string)
    requires Holds(f, q) && IsWord(word) && EndsWith(f, word)
    ensures CutWithin(f, f[..End(f, q)] + MASK, |f| - 1) && CutWithin(f, MASK, |f| - 1)
  {
    hide EndsWith, FindFrom, At, Marker;
    HeldMarkerEnds(f, q);
    MarkerEndsInSeparator(f, End(f, q));
    EndsInWordChar(f, word);
  }

  lemma DroppedResult(t: Text, k: nat, g: string)
    requires k < Fields(t) && IsResult(t, k, g, Passes())
    ensures IsDropped(t, k, Passes()) ==> g == MASK
  {
    hide IsDropped, IsCut, CutsShortest, End;
  }

  lemma FirstEnderDrops(t: Text, q: nat, k: nat, g: string, h: string)
    requires q < Passes() && !IsInner(q) && k + 1 < Fields(t) && BeforeSpace(t, k, Keyword(q))
    requires forall j :: 0 <= j < k ==> !BeforeSpace(t, j, Keyword(q))
    requires IsResult(t, k, g, Passes()) && IsResult(t, k + 1, h, Passes())
    ensures h == MASK || CutWithin(Field(t, k), g, |Field(t, k)| - 1)
  {
    hide BeforeSpace, CutWithin, Drops, EndsWith, IsWord, Holds, IsDropped, IsCut, IsLeft, IsResult, Keyword, Field;
    var f := Field(t, k);
    EnderIsWord(t, q, k);
    DroppedResult(t, k, g);
    DroppedResult(t, k + 1, h);
    if IsDropped(t, k, Passes()) {
      DroppedIsCut(f, |f| - 1);
    } else if IsCut(t, k, Passes()) {
      var p := ShortestOf(t, k, g);
      CutBeforeKeywordEnd(f, p, Keyword(q));
    } else {
      UntouchedIsLeft(t, q, k);
      FirstLeftDrops(t, q, k + 1);
    }
  }

  lemma EnderIsWord(t: Text, q: nat, k: nat)
    requires q < Passes() && k < Fields(t) && BeforeSpace(t, k, Keyword(q))
    ensures EndsWith(Field(t, k), Keyword(q)) && IsWord(Keyword(q)) && Field(t, k) != ""
  {
    KeywordsAreWords(q % |KEYWORDS|);
  }

  lemma ShortestOf(t: Text, k: nat, g: string) returns (p: nat)
    requires k < Fields(t) && IsResult(t, k, g, Passes()) && !IsDropped(t, k, Passes()) && IsCut(t, k, Passes())
    ensures Holds(Field(t, k), p) && g == Field(t, k)[..End(Field(t, k), p)] + MASK
  {
    hide IsDropped, IsCut, Takes, Holds;
    p :| CutsShortest(t, k, p, Passes()) && g == Field(t, k)[..End(Field(t, k), p)] + MASK;
  }

  /** Coverage for the space.  If the first occurrence of a keyword and a space in the text ends
      where field k+1 starts, the result has just the mask for that field, unless field k was
      itself cut before the end of the keyword. */
  lemma ValueBehindSpaceIsHidden(value: string, q: nat, k: nat)
    requires q < Passes() && Separator(q) == ' ' && Occurs(value, Marker(q))
    requires var t := Split(value);
             && k + 1 < Fields(t)
             && FindFrom(Lower(value), Marker(q), 0) + |Marker(q)| == FieldStart(t, k + 1)
    ensures var t, u := Split(value), Split(MaskedText(value));
            && Fields(u) == Fields(t)
            && (Field(u, k + 1) == MASK || CutWithin(Field(t, k), Field(u, k), |Field(t, k)| - 1))
  {
    hide HasMarker, CutWithin, FirstBeforeSpace, FindFrom, At, IsResult, MaskedText, Keyword, BeforeSpace;
    var t, u := Split(value), Split(MaskedText(value));
    OccursMeansHasMarker(value, q, Passes());
    MarkerShape(q);
    FlatFirstIsBeforeSpace(t, Keyword(q), k);
    FirstBeforeSpaceIff(t, Keyword(q), k);
    FieldIsExact(value, k);
    FieldIsExact(value, k + 1);
    FirstEnderDrops(t, q, k, Field(u, k), Field(u, k + 1));
  }

  // ----- Values, read off the text -----

  /** Where shared markers come first in the earlier field, and keywords before a space in front of this field
      stand alone: the value behind a marker is hidden if and only if it is the mask already, or the field
      follows a fresh keyword and space, or some marker up to this one is held by no earlier field. */
  lemma DecidedValueIsHiddenIff(value: string, k: nat, m: nat)
    requires k < Fields(Split(value)) && Holds(Field(Split(value), k), m)
    requires SharedMarkersLead(Split(value), k)
    requires AfterKeyword(Split(value), k) ==> KeywordsAreSteady(Split(value), k)
    ensures var t, u := Split(value), Split(MaskedText(value));
            var f := Field(t, k);
            && Fields(u) == Fields(t)
            && (Hidden(f, Field(u, k), m) <==>
                  Hidden(f, f, m) || IsFreshBehindSpace(t, k) || IsFreshUpTo(t, k, m))
  {
    hide MaskedText, Hidden, IsDropped, KeywordsAreSteady, SharedMarkersLead, IsCutUpTo, IsFreshUpTo, Holds,
         AfterKeyword;
    var t := Split(value);
    ValueIsHiddenIff(value, k, m);
    CutIffFresh(t, k, m);
    if AfterKeyword(t, k) {
      DroppedIffFresh(t, k);
    } else {
      NeverDropped(t, k);
    }
  }

  lemma NeverDropped(t: Text, k: nat)
    requires k < Fields(t) && !AfterKeyword(t, k)
    ensures !IsDropped(t, k, Passes()) && !IsFreshBehindSpace(t, k)
  {
    hide AfterKeyword, BeforeSpace, Drops;
    if q: nat :| q < Passes() && Drops(t, q, k) {
      DropsBehindSpace(t, q, k);
    }
    if IsFreshBehindSpace(t, k) {
      var i :| 0 <= i < |KEYWORDS| && BeforeSpace(t, k - 1, KEYWORDS[i]);
      var q := KeywordWithSpace(i);
      KeywordEnds(t, k, q);
    }
  }
}

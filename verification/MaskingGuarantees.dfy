/** The masker's guarantees, stated on the text that goes in and the text that comes out. */
module MaskingGuarantees {
  import opened Masking
  import opened MaskingFields
  import opened MaskingTheorems

  lemma {:induction false} OccursMeansHasMarker(s: string, q: nat, n: nat)
    requires q < n <= Passes() && Occurs(s, Marker(q))
    ensures HasMarker(s, n)
  {
    hide Occurs, Marker;
    if q < n - 1 {
      OccursMeansHasMarker(s, q, n - 1);
    }
  }

  // With a marker in the text, the fields of the result are the fields after all the passes.
  lemma ResultFields(value: string)
    requires HasMarker(value, Passes())
    ensures Split(MaskedText(value)) == Steps(Split(value), Passes())
  {
    hide Steps, After;
    StepsAreFlatRewrites(Split(value), Passes());
    SplitIsUnique(Steps(Split(value), Passes()));
  }

  /** Structure.  The stop characters are those of the input, in order; every field is unchanged,
      cut right behind one of its markers, or dropped because a keyword and a space precede it;
      and the text grows by at most three characters per field and per pass. */
  lemma MaskedTextStructure(value: string)
    requires HasMarker(value, Passes())
    ensures var t, u := Split(value), Split(MaskedText(value));
            && SameStops(t, u) && Fields(u) == Fields(t)
            && (forall k :: 0 <= k < Fields(t) ==> FieldMasked(Field(t, k), Field(u, k), AfterKeyword(t, k)))
            && |MaskedText(value)| <= |value| + |MASK| * Fields(t)
            && |MaskedText(value)| <= |value| + |MASK| * Passes()
  {
    hide FieldMasked, AfterKeyword, HasMarker, After;
    var t, u := Split(value), Split(MaskedText(value));
    ResultFields(value);
    StepsMask(t, Passes());
    MasksFields(t, u, false);
    forall k | 0 <= k < Fields(t)
      ensures FieldMasked(Field(t, k), Field(u, k), AfterKeyword(t, k))
    {
      MasksField(t, u, false, k);
      FirstFieldIsAfterNothing(t);
    }
    PassesGrowth(value, Passes());
  }

  lemma FirstFieldIsAfterNothing(t: Text)
    ensures !AfterKeyword(t, 0)
  {
  }

  lemma {:induction false} PassesGrowth(s: string, n: nat)
    requires n <= Passes()
    ensures |After(s, n)| <= |s| + |MASK| * n
  {
    hide Marker;
    if n > 0 {
      PassesGrowth(s, n - 1);
      RewriteGrowth(After(s, n - 1), Marker(n - 1));
    }
  }

  lemma RewriteGrowth(s: string, marker: string)
    ensures |Rewrite(s, marker)| <= |s| + |MASK|
  {
  }

  // ----- First occurrences in the flat text -----

  // From the first occurrence in the flat text to the first field that holds it.
  lemma {:induction false} FlatFirstIsFirstAt(t: Text, marker: string, k: nat, o: nat)
    requires WellFormed(t) && |marker| > 0 && NoStops(marker) && Occurs(Flat(t), marker)
    requires k < Fields(t) && 0 < o <= |Field(t, k)|
    requires FindFrom(Lower(Flat(t)), marker, 0) + |marker| == FieldStart(t, k) + o
    ensures FirstAt(t, marker, k, o)
  {
    hide At, FindFrom;
    if FindFrom(Lower(t.field), marker, 0) >= 0 {
      FirstOccurrenceInField(t, marker);
    } else {
      NoOccurrenceInField(t, marker);
      if t.Then? {
        var prefix := t.field + [t.stop];
        assert Flat(t) == prefix + Flat(t.rest);
        FindBehindLower(prefix, Flat(t.rest), marker);
        if k > 0 {
          FlatFirstIsFirstAt(t.rest, marker, k - 1, o);
        }
      }
    }
  }

  lemma {:induction false} FlatFirstIsBeforeSpace(t: Text, keyword: string, k: nat)
    requires WellFormed(t) && |keyword| > 0 && NoStops(keyword) && Occurs(Flat(t), keyword + " ")
    requires k + 1 < Fields(t)
    requires FindFrom(Lower(Flat(t)), keyword + " ", 0) + |keyword| + 1 == FieldStart(t, k + 1)
    ensures FirstBeforeSpace(t, keyword, k)
  {
    hide At, FindFrom, EndsWith;
    if t.stop == ' ' && EndsWith(t.field, keyword) {
      SpaceMarkerAtFieldEnd(t, keyword);
    } else {
      NoSpaceMarkerInField(t, keyword);
      var prefix := t.field + [t.stop];
      assert Flat(t) == prefix + Flat(t.rest);
      FindBehindLower(prefix, Flat(t.rest), keyword + " ");
      if k > 0 {
        FlatFirstIsBeforeSpace(t.rest, keyword, k - 1);
      }
    }
  }

  lemma InnerMarkerHasNoStops(q: nat)
    requires IsInner(q)
    ensures |Marker(q)| > 0 && NoStops(Marker(q))
  {
    MarkerShape(q);
  }

  // ----- Precision -----

  /** A field without a marker, not preceded by a keyword and a space, is left as it is. */
  lemma UnmarkedFieldIsKept(value: string, k: nat)
    requires HasMarker(value, Passes()) && k < Fields(Split(value))
    requires !AfterKeyword(Split(value), k)
    requires forall o :: !MarkerEnds(Field(Split(value), k), o)
    ensures var u := Split(MaskedText(value));
            k < Fields(u) && Field(u, k) == Field(Split(value), k)
  {
    hide HasMarker, MarkerEnds, AfterKeyword;
    MaskedTextStructure(value);
  }

  lemma {:induction false} FirstAtIsInField(t: Text, word: string, k: nat, o: nat)
    requires k < Fields(t) && FirstAt(t, word, k, o)
    ensures o <= |Field(t, k)| && At(Lower(Field(t, k)), word, o - |word|)
  {
    if k > 0 {
      FirstAtIsInField(t.rest, word, k - 1, o);
    }
  }

  // ----- No rewrite creates a marker -----

  // The marker occurs in some field, or a field ends with its keyword before a space.
  predicate Present(t: Text, q: nat)
    requires q < Passes()
  {
    || (if Separator(q) == ' ' then t.Then? && t.stop == ' ' && EndsWith(t.field, Keyword(q))
        else FindFrom(Lower(t.field), Marker(q), 0) >= 0)
    || (t.Then? && Present(t.rest, q))
  }

  lemma {:induction false} PresentIffOccurs(t: Text, q: nat)
    requires WellFormed(t) && q < Passes()
    ensures Present(t, q) <==> Occurs(Flat(t), Marker(q))
  {
    hide At, FindFrom;
    MarkerShape(q);
    var here := if Separator(q) == ' ' then t.Then? && t.stop == ' ' && EndsWith(t.field, Keyword(q))
                else FindFrom(Lower(t.field), Marker(q), 0) >= 0;
    if here {
      if Separator(q) == ' ' {
        SpaceMarkerAtFieldEnd(t, Keyword(q));
      } else {
        FirstOccurrenceInField(t, Marker(q));
      }
    } else {
      if Separator(q) == ' ' {
        NoSpaceMarkerInField(t, Keyword(q));
      } else {
        NoOccurrenceInField(t, Marker(q));
      }
      if t.Then? {
        var prefix := t.field + [t.stop];
        assert Flat(t) == prefix + Flat(t.rest);
        FindBehindLower(prefix, Flat(t.rest), Marker(q));
        PresentIffOccurs(t.rest, q);
      } else {
        OnlyFieldFind(t, Marker(q));
      }
    }
  }

  lemma OnlyFieldFind(t: Text, marker: string)
    requires t.Only? && |marker| > 0
    requires forall j :: 0 <= j <= |t.field| ==> !At(Lower(Flat(t)), marker, j)
    ensures !Occurs(Flat(t), marker)
  {
  }

  lemma {:induction false} PresentBefore(t: Text, u: Text, afterKeyword: bool, q: nat)
    requires Masks(t, u, afterKeyword) && q < Passes() && Present(u, q)
    ensures Present(t, q)
  {
    hide At, FieldMasked, Marker, EndsWith;
    assert t.field == u.field || Cut(t.field, u.field) by {
      FieldIsKeptOrCut(t.field, u.field, afterKeyword);
    }
    if Separator(q) == ' ' {
      if u.Then? && u.stop == ' ' && EndsWith(u.field, Keyword(q)) {
        MarkerShape(q);
        KeywordEndsUncutField(t.field, u.field, Keyword(q));
        return;
      }
    } else if FindFrom(Lower(u.field), Marker(q), 0) >= 0 {
      MarkerWasThere(t.field, u.field, q, FindFrom(Lower(u.field), Marker(q), 0));
      return;
    }
    PresentBefore(t.rest, u.rest, t.stop == ' ' && EndsWithKeyword(t.field), q);
  }

  lemma FieldIsKeptOrCut(f: string, g: string, afterKeyword: bool)
    requires FieldMasked(f, g, afterKeyword)
    ensures f == g || Cut(f, g)
  {
  }

  /** No rewrite creates a marker: a marker found after any number of passes was in the input. */
  lemma MarkersOnlyDisappear(value: string, n: nat, q: nat)
    requires n <= Passes() && q < Passes() && Occurs(After(value, n), Marker(q))
    ensures Occurs(value, Marker(q))
  {
    hide Masks, After, Occurs, Present, Steps;
    var t := Split(value);
    StepsAreFlatRewrites(t, n);
    StepsMask(t, n);
    PresentIffOccurs(Steps(t, n), q);
    PresentBefore(t, Steps(t, n), false, q);
    PresentIffOccurs(t, q);
  }

  // ----- Which field a pass touches -----

  /** If only one marker occurs in the text, however often, the masker makes one rewrite. */
  lemma {:induction false} OneMarkerOneRewrite(value: string, q: nat, n: nat)
    requires q < Passes() && n <= Passes()
    requires forall p: nat :: p < Passes() && p != q ==> !Occurs(value, Marker(p))
    ensures After(value, n) == if n <= q then value else Rewrite(value, Marker(q))
  {
    hide Marker, Occurs, Rewrite;
    if n > 0 {
      OneMarkerOneRewrite(value, q, n - 1);
      if n - 1 != q {
        if Occurs(After(value, n - 1), Marker(n - 1)) {
          MarkersOnlyDisappear(value, n - 1, n - 1);
        }
        NothingToRewrite(After(value, n - 1), Marker(n - 1));
      }
    }
  }

  lemma NothingToRewrite(s: string, marker: string)
    ensures !Occurs(s, marker) ==> Rewrite(s, marker) == s
  {
    hide FindFrom;
  }

  lemma {:induction false} CutFieldTouchesOne(t: Text, marker: string, k: nat, o: nat)
    requires k < Fields(t) && FirstAt(t, marker, k, o)
    ensures var u := CutField(t, marker);
            && Fields(u) == Fields(t) && o <= |Field(t, k)|
            && forall j :: 0 <= j < Fields(t) ==>
                 Field(u, j) == if j == k then Field(t, k)[..o] + MASK else Field(t, j)
  {
    hide At;
    if k > 0 {
      CutFieldTouchesOne(t.rest, marker, k - 1, o);
    }
  }

  lemma {:induction false} NoneBeforeFirst(t: Text, word: string, k: nat, o: nat)
    requires k < Fields(t) && FirstAt(t, word, k, o)
    ensures FindFrom(Lower(Field(t, k)), word, 0) + |word| == o
    ensures forall j :: 0 <= j < k ==> !Occurs(Field(t, j), word)
  {
    hide FindFrom;
    if k > 0 {
      NoneBeforeFirst(t.rest, word, k - 1, o);
    }
  }

  lemma {:induction false} FieldMarkerIsPresent(t: Text, q: nat, k: nat)
    requires IsInner(q) && k < Fields(t) && Occurs(Field(t, k), Marker(q))
    ensures Present(t, q)
  {
    hide FindFrom, Marker;
    if k > 0 {
      FieldMarkerIsPresent(t.rest, q, k - 1);
    }
  }
}

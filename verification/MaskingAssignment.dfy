/** Every masked field of every text, exactly.  What a pass works on is decided by the text that comes
    in and the passes before: a marker takes the first field in which it is left. */
module MaskingAssignment {
  import opened Masking
  import opened MaskingFields
  import opened MaskingTheorems
  import opened MaskingGuarantees
  import opened MaskingConditions

  // ----- Which field each pass takes -----

  /** When its pass comes the marker is left in the field: for = and :, no earlier pass took the field
      with a marker that ends before it; for the space, no earlier pass took the field or dropped it. */
  ghost predicate IsLeft(t: Text, q: nat, i: nat)
    requires q < Passes() && i < Fields(t)
    decreases q, 0
  {
    if IsInner(q) then
      && Holds(Field(t, i), q)
      && forall p: nat :: p < q && Cuts(t, p, i) ==> End(Field(t, i), q) <= End(Field(t, i), p)
    else
      && BeforeSpace(t, i, Keyword(q))
      && forall p: nat :: p < q ==> !Cuts(t, p, i) && !Drops(t, p, i)
  }

  // The field is the first one in which the marker is left.
  ghost predicate Takes(t: Text, q: nat, i: nat)
    requires q < Passes() && i < Fields(t)
    decreases q, 1
  {
    IsLeft(t, q, i) && forall j :: 0 <= j < i ==> !IsLeft(t, q, j)
  }

  ghost predicate Cuts(t: Text, q: nat, i: nat)
    requires q < Passes() && i < Fields(t)
    decreases q, 2
  {
    Holds(Field(t, i), q) && Takes(t, q, i)
  }

  // The pass takes the field before, so this one is its value.
  ghost predicate Drops(t: Text, q: nat, i: nat)
    requires q < Passes() && i < Fields(t)
    decreases q, 2
  {
    !IsInner(q) && i > 0 && Takes(t, q, i - 1)
  }

  // One of the first n passes drops the field, or cuts it; and the one that cuts it shortest.
  ghost predicate IsDropped(t: Text, k: nat, n: nat)
    requires k < Fields(t) && n <= Passes()
  {
    exists q: nat :: q < n && Drops(t, q, k)
  }

  ghost predicate IsCut(t: Text, k: nat, n: nat)
    requires k < Fields(t) && n <= Passes()
  {
    exists q: nat :: q < n && Cuts(t, q, k)
  }

  ghost predicate CutsShortest(t: Text, k: nat, q: nat, n: nat)
    requires k < Fields(t) && n <= Passes()
  {
    && q < n && Cuts(t, q, k)
    && forall p: nat :: p < n && Cuts(t, p, k) ==> End(Field(t, k), q) <= End(Field(t, k), p)
  }

  /** The field after n passes. */
  ghost predicate IsResult(t: Text, k: nat, g: string, n: nat)
    requires k < Fields(t) && n <= Passes()
  {
    var f := Field(t, k);
    if IsDropped(t, k, n) then g == MASK
    else if IsCut(t, k, n) then exists q: nat :: CutsShortest(t, k, q, n) && g == f[..End(f, q)] + MASK
    else g == f
  }

  ghost predicate AreResults(t: Text, u: Text, n: nat)
    requires n <= Passes()
  {
    Fields(u) == Fields(t) && forall k :: 0 <= k < Fields(t) ==> IsResult(t, k, Field(u, k), n)
  }

  // ----- The passes for = and : -----

  // What is left of a marker in a field that was cut.
  lemma LeftBeforeCut(f: string, g: string, o: nat, q: nat)
    requires o <= |f| && g == f[..o] + MASK && Holds(g, q)
    ensures Holds(f, q) && End(f, q) == End(g, q) <= o && g[..End(g, q)] == f[..End(f, q)]
  {
    hide FindFrom, Marker, At;
    assert Cut(f, g);
    FirstInKeptPart(f, g, q);
    MarkerWasThere(f, g, q, End(g, q) - |Marker(q)|);
  }

  lemma KeptBeforeCut(f: string, g: string, o: nat, q: nat)
    requires o <= |f| && g == f[..o] + MASK && Holds(f, q) && End(f, q) <= o
    ensures Holds(g, q)
  {
    hide FindFrom;
    assert forall j :: 0 <= j < End(f, q) ==> g[j] == f[j];
    assert At(Lower(g), Marker(q), End(f, q) - |Marker(q)|);
    HeldAt(g, q, End(f, q) - |Marker(q)|);
  }

  lemma LeftInCutField(f: string, g: string, o: nat, q: nat)
    requires o <= |f| && g == f[..o] + MASK
    ensures Holds(g, q) <==> Holds(f, q) && End(f, q) <= o
    ensures Holds(g, q) ==> End(g, q) == End(f, q) && g[..End(g, q)] == f[..End(f, q)]
  {
    hide Holds, End;
    if Holds(g, q) {
      LeftBeforeCut(f, g, o, q);
    } else if Holds(f, q) && End(f, q) <= o {
      KeptBeforeCut(f, g, o, q);
    }
  }

  lemma InnerPassDropsNothing(t: Text, k: nat, n: nat)
    requires k < Fields(t) && n <= Passes() && (n > 0 ==> IsInner(n - 1))
    ensures !IsDropped(t, k, n)
  {
  }

  lemma LeftIffHeld(t: Text, u: Text, q: nat, i: nat)
    requires IsInner(q) && AreResults(t, u, q) && i < Fields(t)
    ensures Holds(Field(u, i), q) <==> IsLeft(t, q, i)
    ensures Holds(Field(u, i), q) ==>
              var (f, g) := (Field(t, i), Field(u, i));
              Holds(f, q) && End(g, q) == End(f, q) && g[..End(g, q)] == f[..End(f, q)]
  {
    hide Holds, Takes, FindFrom, At;
    var f, g := Field(t, i), Field(u, i);
    assert IsResult(t, i, g, q);
    if q > 0 {
      InnerComesFirst(q, q - 1);
    }
    InnerPassDropsNothing(t, i, q);
    if IsCut(t, i, q) {
      var p: nat :| CutsShortest(t, i, p, q) && g == f[..End(f, p)] + MASK;
      LeftInCutField(f, g, End(f, p), q);
    }
  }

  // The pass cuts the field it takes, and leaves the others.
  lemma CutIsResult(t: Text, k: nat, g: string, n: nat)
    requires k < Fields(t) && IsInner(n) && IsResult(t, k, g, n) && Cuts(t, n, k)
    ensures IsResult(t, k, Field(t, k)[..End(Field(t, k), n)] + MASK, n + 1)
  {
    hide Holds, IsLeft, Takes, Drops;
    InnerPassDropsNothing(t, k, n + 1);
    ShortestSoFar(t, k, n);
  }

  lemma ShortestSoFar(t: Text, k: nat, n: nat)
    requires k < Fields(t) && IsInner(n) && Cuts(t, n, k)
    ensures CutsShortest(t, k, n, n + 1)
  {
    hide Holds, Drops;
    assert IsLeft(t, n, k);
  }

  lemma OneMorePass(t: Text, k: nat, n: nat)
    requires k < Fields(t) && n < Passes() && !Cuts(t, n, k) && !Drops(t, n, k)
    ensures IsDropped(t, k, n + 1) <==> IsDropped(t, k, n)
    ensures IsCut(t, k, n + 1) <==> IsCut(t, k, n)
  {
    hide Drops, Cuts;
  }

  lemma StillShortest(t: Text, k: nat, q: nat, n: nat)
    requires k < Fields(t) && n < Passes() && !Cuts(t, n, k) && CutsShortest(t, k, q, n)
    ensures CutsShortest(t, k, q, n + 1)
  {
    hide Takes, Holds;
  }

  lemma KeptIsResult(t: Text, k: nat, g: string, n: nat)
    requires k < Fields(t) && n < Passes() && IsResult(t, k, g, n)
    requires !Cuts(t, n, k) && !Drops(t, n, k)
    ensures IsResult(t, k, g, n + 1)
  {
    hide IsDropped, IsCut, Drops, Holds, Takes;
    OneMorePass(t, k, n);
    if !IsDropped(t, k, n) && IsCut(t, k, n) {
      var q: nat :| CutsShortest(t, k, q, n) && g == Field(t, k)[..End(Field(t, k), q)] + MASK;
      StillShortest(t, k, q, n);
    }
  }

  // What the pass finds in the fields as they are is what the text that came in says.
  lemma FoundIsTaken(t: Text, u: Text, n: nat, h: nat, o: nat)
    requires IsInner(n) && AreResults(t, u, n) && h < Fields(u) && FirstAt(u, Marker(n), h, o)
    ensures Cuts(t, n, h) && o <= |Field(u, h)|
    ensures Field(u, h)[..o] == Field(t, h)[..End(Field(t, h), n)]
    ensures forall k :: 0 <= k < Fields(t) && k != h ==> !Cuts(t, n, k)
  {
    hide FirstAt, IsLeft, FindFrom, At, Marker, IsResult;
    NoneBeforeFirst(u, Marker(n), h, o);
    FirstAtIsInField(u, Marker(n), h, o);
    HeldAt(Field(u, h), n, o - |Marker(n)|);
    forall i | 0 <= i < Fields(t)
      ensures Holds(Field(u, i), n) <==> IsLeft(t, n, i)
    {
      LeftIffHeld(t, u, n, i);
    }
    LeftIffHeld(t, u, n, h);
    assert forall i :: 0 <= i < h ==> !Holds(Field(u, i), n);
    TakenAtMostOnce(t, n, h);
  }

  lemma TakenAtMostOnce(t: Text, q: nat, i: nat)
    requires q < Passes() && i < Fields(t)
    requires IsLeft(t, q, i) && forall j :: 0 <= j < i ==> !IsLeft(t, q, j)
    ensures Takes(t, q, i) && forall k :: 0 <= k < Fields(t) && k != i ==> !Takes(t, q, k)
  {
    hide IsLeft;
  }

  lemma NoneFoundNoneTaken(t: Text, u: Text, n: nat, k: nat)
    requires IsInner(n) && AreResults(t, u, n) && k < Fields(t) && !Occurs(Field(u, k), Marker(n))
    ensures !Cuts(t, n, k)
  {
    hide IsLeft, FindFrom, At, Marker, IsResult;
    LeftIffHeld(t, u, n, k);
  }

  lemma CutStepIsExact(t: Text, u: Text, n: nat)
    requires IsInner(n) && AreResults(t, u, n)
    ensures AreResults(t, CutField(u, Marker(n)), n + 1)
  {
    hide CutField, FirstAt, Cuts, FindFrom, Holds, Marker, IsResult, Occurs;
    var v := CutField(u, Marker(n));
    var found, h, o := FirstHolder(u, Marker(n));
    if found {
      CutFieldTouchesOne(u, Marker(n), h, o);
      FoundIsTaken(t, u, n, h, o);
    }
    forall k | 0 <= k < Fields(t)
      ensures Fields(v) == Fields(t) && IsResult(t, k, Field(v, k), n + 1)
    {
      assert IsResult(t, k, Field(u, k), n);
      if found && k == h {
        CutIsResult(t, k, Field(u, k), n);
      } else {
        if !found {
          NoneFoundNoneTaken(t, u, n, k);
        }
        KeptIsResult(t, k, Field(u, k), n);
      }
    }
  }

  // ----- The passes for the space -----

  lemma CutFieldEndsInMask(f: string, o: nat, word: string)
    requires o <= |f| && IsWord(word)
    ensures !EndsWith(f[..o] + MASK, word) && !EndsWith(MASK, word)
  {
    hide EndsWith;
    var g := f[..o] + MASK;
    assert Lower(g)[|g| - 1] == '*' && Lower(MASK)[|MASK| - 1] == '*';
    if EndsWith(g, word) {
      EndsInWordChar(g, word);
    }
    if EndsWith(MASK, word) {
      EndsInWordChar(MASK, word);
    }
  }

  // A field that some pass has changed ends with the mask.
  lemma TakenFieldEndsInNoKeyword(t: Text, i: nat, g: string, q: nat, word: string)
    requires i < Fields(t) && q <= Passes() && IsResult(t, i, g, q) && IsWord(word)
    requires IsDropped(t, i, q) || IsCut(t, i, q)
    ensures !EndsWith(g, word)
  {
    hide Holds, Takes, EndsWith, IsDropped, IsCut;
    var f := Field(t, i);
    CutFieldEndsInMask(f, 0, word);
    if !IsDropped(t, i, q) {
      var p: nat :| CutsShortest(t, i, p, q) && g == f[..End(f, p)] + MASK;
      CutFieldEndsInMask(f, End(f, p), word);
    }
  }

  lemma LeftIffUntouched(t: Text, q: nat, i: nat)
    requires q < Passes() && !IsInner(q) && i < Fields(t)
    ensures IsLeft(t, q, i) <==> BeforeSpace(t, i, Keyword(q)) && !IsDropped(t, i, q) && !IsCut(t, i, q)
  {
    hide BeforeSpace, Cuts, Drops, Keyword;
  }

  lemma LeftIffEnds(t: Text, u: Text, q: nat, i: nat)
    requires q < Passes() && !IsInner(q) && AreResults(t, u, q) && SameStops(t, u) && i < Fields(t)
    ensures BeforeSpace(u, i, Keyword(q)) <==> IsLeft(t, q, i)
  {
    hide IsLeft, EndsWith, IsDropped, IsCut, IsWord, SameStops, AreResults;
    assert Fields(u) == Fields(t) && IsResult(t, i, Field(u, i), q) by {
      ResultOf(t, u, q, i);
    }
    KeywordsAreWords(q % |KEYWORDS|);
    LeftIffUntouched(t, q, i);
    if i + 1 < Fields(t) {
      SameStopsAt(t, u, i);
    }
    if IsDropped(t, i, q) || IsCut(t, i, q) {
      TakenFieldEndsInNoKeyword(t, i, Field(u, i), q, Keyword(q));
    }
  }

  lemma ResultOf(t: Text, u: Text, n: nat, k: nat)
    requires n <= Passes() && AreResults(t, u, n) && k < Fields(t)
    ensures Fields(u) == Fields(t) && IsResult(t, k, Field(u, k), n)
  {
    hide IsResult;
  }

  lemma DropIsResult(t: Text, k: nat, n: nat)
    requires k < Fields(t) && n < Passes() && Drops(t, n, k)
    ensures IsResult(t, k, MASK, n + 1)
  {
    hide Drops;
  }

  lemma EnderIsTaken(t: Text, u: Text, n: nat, h: nat)
    requires n < Passes() && !IsInner(n) && AreResults(t, u, n) && SameStops(t, u)
    requires h + 1 < Fields(u) && FirstBeforeSpace(u, Keyword(n), h)
    ensures Drops(t, n, h + 1)
    ensures forall k :: 0 <= k < Fields(t) && k != h + 1 ==> !Drops(t, n, k)
  {
    hide FirstBeforeSpace, IsLeft, IsResult, BeforeSpace, SameStops;
    FirstBeforeSpaceIff(u, Keyword(n), h);
    forall i | 0 <= i < Fields(t)
      ensures BeforeSpace(u, i, Keyword(n)) <==> IsLeft(t, n, i)
    {
      LeftIffEnds(t, u, n, i);
    }
    TakenAtMostOnce(t, n, h);
  }

  lemma NoEnderNoneTaken(t: Text, u: Text, n: nat, k: nat)
    requires n < Passes() && !IsInner(n) && AreResults(t, u, n) && SameStops(t, u) && k < Fields(t)
    requires forall j :: 0 <= j < Fields(u) ==> !BeforeSpace(u, j, Keyword(n))
    ensures !Drops(t, n, k)
  {
    hide IsLeft, IsResult, BeforeSpace;
    if k > 0 {
      LeftIffEnds(t, u, n, k - 1);
    }
  }

  lemma DropStepIsExact(t: Text, u: Text, n: nat)
    requires n < Passes() && !IsInner(n) && AreResults(t, u, n) && SameStops(t, u)
    ensures AreResults(t, DropField(u, Keyword(n)), n + 1)
  {
    hide DropField, FirstBeforeSpace, Cuts, Drops, Keyword, IsResult, BeforeSpace;
    var v := DropField(u, Keyword(n));
    var found, h := FirstEnder(u, Keyword(n));
    if found {
      DropFieldTouchesOne(u, Keyword(n), h);
      EnderIsTaken(t, u, n, h);
    }
    forall k | 0 <= k < Fields(t)
      ensures Fields(v) == Fields(t) && IsResult(t, k, Field(v, k), n + 1)
    {
      assert IsResult(t, k, Field(u, k), n);
      if found && k == h + 1 {
        DropIsResult(t, k, n);
      } else {
        if !found {
          NoEnderNoneTaken(t, u, n, k);
        }
        SpaceCutsNothing(t, k, n);
        KeptIsResult(t, k, Field(u, k), n);
      }
    }
  }

  lemma SpaceCutsNothing(t: Text, k: nat, n: nat)
    requires k < Fields(t) && n < Passes() && !IsInner(n)
    ensures !Cuts(t, n, k)
  {
  }

  // ----- All the passes -----

  lemma NothingDoneYet(t: Text)
    ensures AreResults(t, t, 0)
  {
  }

  /** After any number of passes, in every text: a field is the mask if one of them dropped it, else cut
      behind the earliest of the markers that took it, else as it came in. */
  lemma {:induction false} StepsAreExact(t: Text, n: nat)
    requires n <= Passes()
    ensures AreResults(t, Steps(t, n), n)
  {
    hide AreResults, Step, Masks;
    if n == 0 {
      NothingDoneYet(t);
    } else {
      StepsAreExact(t, n - 1);
      StepsMask(t, n - 1);
      MasksFields(t, Steps(t, n - 1), false);
      StepIsExact(t, Steps(t, n - 1), n - 1);
    }
  }

  lemma StepIsExact(t: Text, u: Text, n: nat)
    requires n < Passes() && AreResults(t, u, n) && SameStops(t, u)
    ensures AreResults(t, Step(u, n), n + 1)
  {
    hide AreResults, CutField, DropField, SameStops, Marker;
    if IsInner(n) {
      CutStepIsExact(t, u, n);
    } else {
      DropStepIsExact(t, u, n);
    }
  }

  // ----- What becomes of the values -----

  /** Every field of every text with a marker, exactly. */
  lemma FieldIsExact(value: string, k: nat)
    requires HasMarker(value, Passes()) && k < Fields(Split(value))
    ensures var u := Split(MaskedText(value));
            Fields(u) == Fields(Split(value)) && IsResult(Split(value), k, Field(u, k), Passes())
  {
    hide HasMarker, MaskedText, Steps, IsResult;
    ResultFields(value);
    StepsAreExact(Split(value), Passes());
  }

  lemma ShortestCut(t: Text, k: nat, g: string, p: nat) returns (q: nat)
    requires k < Fields(t) && IsResult(t, k, g, Passes()) && !IsDropped(t, k, Passes())
    requires p < Passes() && Cuts(t, p, k)
    ensures q < Passes() && Holds(Field(t, k), q) && End(Field(t, k), q) <= End(Field(t, k), p)
    ensures g == Field(t, k)[..End(Field(t, k), q)] + MASK
  {
    hide IsDropped, Takes, Holds, Marker;
    q :| CutsShortest(t, k, q, Passes()) && g == Field(t, k)[..End(Field(t, k), q)] + MASK;
  }

  lemma NothingCutsTheMask(t: Text, k: nat)
    requires k < Fields(t) && Field(t, k) == MASK
    ensures !IsCut(t, k, Passes())
  {
    hide FindFrom, At, Takes;
    if q: nat :| q < Passes() && Cuts(t, q, k) {
      HeldMarkerEnds(MASK, q);
      NoMarkerInMask(End(MASK, q));
    }
  }

  /** A field ends as the bare mask if and only if it was the mask, or a pass for the space dropped it. */
  lemma DroppedIff(value: string, k: nat)
    requires HasMarker(value, Passes()) && k < Fields(Split(value))
    ensures var t, u := Split(value), Split(MaskedText(value));
            && Fields(u) == Fields(t)
            && (Field(u, k) == MASK <==> Field(t, k) == MASK || IsDropped(t, k, Passes()))
  {
    hide HasMarker, MaskedText, IsDropped, IsCut, Holds, Takes;
    var t := Split(value);
    FieldIsExact(value, k);
    if Field(t, k) == MASK {
      NothingCutsTheMask(t, k);
    }
  }

  // Some marker up to this one took the field.
  ghost predicate IsCutUpTo(t: Text, k: nat, m: nat)
    requires k < Fields(t) && Holds(Field(t, k), m)
  {
    exists q: nat :: q < Passes() && Cuts(t, q, k) && End(Field(t, k), q) <= End(Field(t, k), m)
  }

  lemma HiddenInResult(t: Text, k: nat, m: nat, g: string)
    requires k < Fields(t) && Holds(Field(t, k), m) && IsResult(t, k, g, Passes())
    ensures var f := Field(t, k);
            Hidden(f, g, m) <==> Hidden(f, f, m) || IsDropped(t, k, Passes()) || IsCutUpTo(t, k, m)
  {
    hide IsDropped, Holds, Takes, CutWithin;
    var f := Field(t, k);
    if IsDropped(t, k, Passes()) {
      DroppedIsCut(f, End(f, m));
    } else {
      if Hidden(f, f, m) {
        MaskedAlreadyAtEvery(f, m);
      }
      if IsCut(t, k, Passes()) {
        var q: nat :| CutsShortest(t, k, q, Passes()) && g == f[..End(f, q)] + MASK;
        CutWithinIff(f, End(f, q), End(f, m));
      }
    }
  }

  /** In every text, the value behind a marker is hidden if and only if it is the mask already, or its
      field was dropped, or some marker up to this one took the field. */
  lemma ValueIsHiddenIff(value: string, k: nat, m: nat)
    requires k < Fields(Split(value)) && Holds(Field(Split(value), k), m)
    ensures var t, u := Split(value), Split(MaskedText(value));
            var f := Field(t, k);
            && Fields(u) == Fields(t)
            && (Hidden(f, Field(u, k), m) <==>
                  Hidden(f, f, m) || IsDropped(t, k, Passes()) || IsCutUpTo(t, k, m))
  {
    hide HasMarker, MaskedText, Holds, Hidden, IsDropped, IsCutUpTo, IsResult;
    HeldMeansHasMarker(value, k, m);
    FieldIsExact(value, k);
    HiddenInResult(Split(value), k, m, Field(Split(MaskedText(value)), k));
  }

  ghost predicate HidesAll(t: Text, u: Text) {
    forall k, m: nat :: 0 <= k < Fields(t) && Holds(Field(t, k), m) ==>
      k < Fields(u) && Hidden(Field(t, k), Field(u, k), m)
  }

  /** So all values behind = and : in a text are hidden if and only if that holds of each of them. */
  lemma EveryValueIsHiddenIff(value: string)
    ensures var t := Split(value);
            HidesAll(t, Split(MaskedText(value))) <==>
            forall k, m: nat :: 0 <= k < Fields(t) && Holds(Field(t, k), m) ==>
              Hidden(Field(t, k), Field(t, k), m) || IsDropped(t, k, Passes()) || IsCutUpTo(t, k, m)
  {
    hide Hidden, IsDropped, IsCutUpTo, Holds, MaskedText;
    var t, u := Split(value), Split(MaskedText(value));
    forall k, m: nat | 0 <= k < Fields(t) && Holds(Field(t, k), m)
      ensures Fields(u) == Fields(t)
      ensures Hidden(Field(t, k), Field(u, k), m) <==>
              Hidden(Field(t, k), Field(t, k), m) || IsDropped(t, k, Passes()) || IsCutUpTo(t, k, m)
    {
      ValueIsHiddenIff(value, k, m);
    }
  }

  lemma DropsBehindKeyword(t: Text, k: nat)
    requires k < Fields(t) && IsDropped(t, k, Passes())
    ensures k > 0 && EndsWithKeyword(Field(t, k - 1))
  {
    hide EndsWith, Cuts;
    var q: nat :| q < Passes() && Drops(t, q, k);
    assert Takes(t, q, k - 1);
    LeftIffUntouched(t, q, k - 1);
    assert Keyword(q) == KEYWORDS[q % |KEYWORDS|];
  }

  lemma CutChangesIff(t: Text, k: nat, g: string)
    requires k < Fields(t) && !IsDropped(t, k, Passes()) && IsResult(t, k, g, Passes())
    ensures g == Field(t, k) <==>
            forall q: nat :: q < Passes() && Cuts(t, q, k) ==> Hidden(Field(t, k), Field(t, k), q)
  {
    hide IsDropped, Takes, FindFrom, At, Occurs, IsInner;
    var f := Field(t, k);
    if IsCut(t, k, Passes()) {
      var q: nat :| CutsShortest(t, k, q, Passes()) && g == f[..End(f, q)] + MASK;
      if Hidden(f, f, q) {
        MaskedAlready(f, q);
        assert Cut(f, f);
      }
      if g == f {
        assert Cut(f, f);
        forall p: nat | p < Passes() && Cuts(t, p, k)
          ensures Hidden(f, f, p)
        {
        }
      }
    }
  }

  /** A value that a stop character separates from its = or : is not masked for that marker: the field
      behind a field that ends with a marker is left as it is, if and only if no marker takes it but
      such whose value is the mask. */
  lemma SeparatedValueStaysIff(value: string, k: nat)
    requires k + 1 < Fields(Split(value)) && MarkerEnds(Field(Split(value), k), |Field(Split(value), k)|)
    ensures var t, u := Split(value), Split(MaskedText(value));
            var f := Field(t, k + 1);
            && Fields(u) == Fields(t)
            && (Field(u, k + 1) == f <==> forall q: nat :: q < Passes() && Cuts(t, q, k + 1) ==> Hidden(f, f, q))
  {
    hide HasMarker, MaskedText, IsDropped, IsResult, Cuts, Hidden, MarkerEnds, EndsWithKeyword;
    var t := Split(value);
    SomeMarkerEnds(value, k);
    FieldIsExact(value, k + 1);
    MarkerAtEndIsNoKeyword(Field(t, k));
    if IsDropped(t, k + 1, Passes()) {
      DropsBehindKeyword(t, k + 1);
    }
    CutChangesIff(t, k + 1, Field(Split(MaskedText(value)), k + 1));
  }
}

/** What masking a text does to its fields: which may change and how, and where a marker or a keyword
    stands first. */
module MaskingTheorems {
  import opened Masking
  import opened MaskingFields

  function Fields(t: Text): nat {
    if t.Only? then 1 else 1 + Fields(t.rest)
  }

  function Field(t: Text, k: nat): string
    requires k < Fields(t)
  {
    if k == 0 then t.field else Field(t.rest, k - 1)
  }

  // Where field k starts in the flat text.
  function FieldStart(t: Text, k: nat): nat
    requires k < Fields(t)
  {
    if k == 0 then 0 else |t.field| + 1 + FieldStart(t.rest, k - 1)
  }

  // ----- Structure -----

  // The masked field g keeps a prefix of f, and the mask stands for the rest.
  predicate Cut(f: string, g: string) {
    |MASK| <= |g| <= |f| + |MASK| && g == f[..|g| - |MASK|] + MASK
  }

  predicate CutWithin(f: string, g: string, o: int) {
    Cut(f, g) && |g| - |MASK| <= o
  }

  predicate IsInner(q: nat) {
    q < Passes() && Separator(q) != ' '
  }

  // A keyword with = or : ends at offset o of the field.
  ghost predicate MarkerEnds(f: string, o: int) {
    o <= |f| && exists q :: IsInner(q) && At(Lower(f), Marker(q), o - |Marker(q)|)
  }

  ghost predicate EndsWithKeyword(f: string) {
    exists k :: 0 <= k < |KEYWORDS| && EndsWith(f, KEYWORDS[k])
  }

  // A field is unchanged, or cut right behind a marker, or dropped because a keyword and a
  // space precede it.
  ghost predicate FieldMasked(f: string, g: string, afterKeyword: bool) {
    g == f || (Cut(f, g) && (MarkerEnds(f, |g| - |MASK|) || (afterKeyword && g == MASK)))
  }

  ghost predicate Masks(t: Text, u: Text, afterKeyword: bool) {
    && FieldMasked(t.field, u.field, afterKeyword)
    && match (t, u)
       case (Only(_), Only(_)) => true
       case (Then(f, c, r), Then(_, d, r')) => c == d && Masks(r, r', c == ' ' && EndsWithKeyword(f))
       case _ => false
  }

  lemma {:induction false} MasksReflexive(t: Text, afterKeyword: bool)
    ensures Masks(t, t, afterKeyword)
  {
    if t.Then? {
      MasksReflexive(t.rest, t.stop == ' ' && EndsWithKeyword(t.field));
    }
  }

  // A marker found in a masked field lies in the kept prefix, so it was in the field before.
  lemma MarkerWasThere(f: string, g: string, q: nat, i: int)
    requires g == f || Cut(f, g)
    requires IsInner(q) && At(Lower(g), Marker(q), i)
    ensures i + |Marker(q)| <= |f| && At(Lower(f), Marker(q), i)
    ensures g[..i + |Marker(q)|] == f[..i + |Marker(q)|]
    ensures Cut(f, g) ==> i + |Marker(q)| <= |g| - |MASK|
  {
    var m := Marker(q);
    MarkerShape(q);
    var last := i + |m| - 1;
    assert Lower(g)[last] == m[|m| - 1] == Separator(q);
    if Cut(f, g) {
      assert g[last] != '*';
      assert last < |g| - |MASK|;
      assert forall j :: 0 <= j <= last ==> g[j] == f[j];
    }
  }

  // A field that ends with a keyword has not been cut.
  lemma KeywordEndsUncutField(f: string, g: string, word: string)
    requires g == f || Cut(f, g)
    requires IsWord(word) && EndsWith(g, word)
    ensures g == f
  {
    assert Lower(g)[|g| - 1] == word[|word| - 1];
  }

  lemma CutFieldMasks(f: string, g: string, afterKeyword: bool, q: nat)
    requires FieldMasked(f, g, afterKeyword) && IsInner(q)
    requires FindFrom(Lower(g), Marker(q), 0) >= 0
    ensures var end := FindFrom(Lower(g), Marker(q), 0) + |Marker(q)|;
            var h := g[..end] + MASK;
            && FieldMasked(f, h, afterKeyword)
            && Cut(f, h) && (Cut(f, g) ==> |h| <= |g|)
  {
    MarkerWasThere(f, g, q, FindFrom(Lower(g), Marker(q), 0));
  }

  lemma {:induction false} CutKeepsMasks(t: Text, u: Text, afterKeyword: bool, q: nat)
    requires Masks(t, u, afterKeyword) && IsInner(q)
    ensures Masks(t, CutField(u, Marker(q)), afterKeyword)
  {
    hide FieldMasked, Marker;
    if FindFrom(Lower(u.field), Marker(q), 0) >= 0 {
      CutFieldMasks(t.field, u.field, afterKeyword, q);
    } else if t.Then? {
      CutKeepsMasks(t.rest, u.rest, t.stop == ' ' && EndsWithKeyword(t.field), q);
    }
  }

  lemma {:induction false} DropKeepsMasks(t: Text, u: Text, afterKeyword: bool, k: nat)
    requires Masks(t, u, afterKeyword) && k < |KEYWORDS|
    ensures Masks(t, DropField(u, KEYWORDS[k]), afterKeyword)
  {
    if t.Then? {
      if u.stop == ' ' && EndsWith(u.field, KEYWORDS[k]) {
        KeywordsAreWords(k);
        KeywordEndsUncutField(t.field, u.field, KEYWORDS[k]);
        assert Cut(t.rest.field, MASK);
      } else {
        DropKeepsMasks(t.rest, u.rest, t.stop == ' ' && EndsWithKeyword(t.field), k);
      }
    }
  }

  lemma StepKeepsMasks(t: Text, u: Text, afterKeyword: bool, q: nat)
    requires Masks(t, u, afterKeyword) && q < Passes()
    ensures Masks(t, Step(u, q), afterKeyword)
  {
    if Separator(q) == ' ' {
      DropKeepsMasks(t, u, afterKeyword, q % |KEYWORDS|);
    } else {
      CutKeepsMasks(t, u, afterKeyword, q);
    }
  }

  /** After any number of passes every field is unchanged, cut behind a marker of the input, or
      dropped after a keyword and a space of the input. */
  lemma {:induction false} StepsMask(t: Text, n: nat)
    requires n <= Passes()
    ensures Masks(t, Steps(t, n), false)
  {
    hide Masks, Step;
    if n == 0 {
      MasksReflexive(t, false);
    } else {
      StepsMask(t, n - 1);
      StepKeepsMasks(t, Steps(t, n - 1), false, n - 1);
    }
  }

  lemma {:induction false} MasksFields(t: Text, u: Text, afterKeyword: bool)
    requires Masks(t, u, afterKeyword)
    ensures Fields(u) == Fields(t) && SameStops(t, u)
    ensures |Flat(u)| <= |Flat(t)| + |MASK| * Fields(t)
  {
    if t.Then? {
      MasksFields(t.rest, u.rest, t.stop == ' ' && EndsWithKeyword(t.field));
    }
  }

  // What precedes field k: a stop character that is a space, after a field ending with a keyword.
  ghost predicate AfterKeyword(t: Text, k: nat)
    requires k < Fields(t)
  {
    k > 0 && if k == 1 then t.stop == ' ' && EndsWithKeyword(t.field) else AfterKeyword(t.rest, k - 1)
  }

  lemma {:induction false} MasksField(t: Text, u: Text, afterKeyword: bool, k: nat)
    requires Masks(t, u, afterKeyword) && k < Fields(t)
    ensures Fields(u) == Fields(t)
    ensures FieldMasked(Field(t, k), Field(u, k), if k == 0 then afterKeyword else AfterKeyword(t, k))
  {
    hide FieldMasked, EndsWithKeyword;
    MasksFields(t, u, afterKeyword);
    if k > 0 {
      MasksField(t.rest, u.rest, t.stop == ' ' && EndsWithKeyword(t.field), k - 1);
    }
  }

  // ----- The first field with a marker -----

  // Field k is the first one with an occurrence of the word, which ends at offset o.
  predicate FirstAt(t: Text, word: string, k: nat, o: nat)
    requires k < Fields(t)
  {
    var index := FindFrom(Lower(t.field), word, 0);
    if k == 0 then index >= 0 && index + |word| == o
    else index < 0 && FirstAt(t.rest, word, k - 1, o)
  }

  // The occurrence is still there in the masked field unless the cut lies before its end.
  lemma FirstStaysOrIsCut(f: string, g: string, q: nat, o: nat)
    requires g == f || Cut(f, g)
    requires IsInner(q) && At(Lower(f), Marker(q), o - |Marker(q)|)
    ensures At(Lower(g), Marker(q), o - |Marker(q)|) || CutWithin(f, g, o)
  {
    if g != f && |g| - |MASK| >= o {
      assert forall j :: 0 <= j < o ==> g[j] == f[j];
    }
  }

  lemma DroppedIsCut(f: string, o: nat)
    ensures CutWithin(f, MASK, o)
  {
  }

  // ----- The first field that ends with a keyword before a space -----

  // Field k is the first one that ends with the keyword before a space.
  predicate FirstBeforeSpace(t: Text, keyword: string, k: nat)
    requires k < Fields(t)
  {
    && t.Then?
    && var here := t.stop == ' ' && EndsWith(t.field, keyword);
       if k == 0 then here else !here && FirstBeforeSpace(t.rest, keyword, k - 1)
  }

  lemma MarkerEndsInSeparator(f: string, o: int)
    requires MarkerEnds(f, o)
    ensures o > 0 && (Lower(f)[o - 1] == '=' || Lower(f)[o - 1] == ':')
  {
    var q :| IsInner(q) && At(Lower(f), Marker(q), o - |Marker(q)|);
    MarkerShape(q);
    assert Lower(f)[o - 1] == Marker(q)[|Marker(q)| - 1] == Separator(q);
  }

}

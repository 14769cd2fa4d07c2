/** Texts that show what decides.  First texts whose secret the masker leaves in place: a marker that
    occurs twice, a marker inside the one of an earlier field, a keyword and a space that occur twice,
    and a value separated from its marker by a space.  Then one where a marker in two fields does no
    harm. */
module MaskingExamples {
  import opened Texts
  import opened Masking
  import opened MaskingFields
  import opened MaskingTheorems
  import opened MaskingGuarantees
  import opened MaskingConditions
  import opened MaskingAssignment

  // Enough of each keyword to tell it from the others in the texts below.
  lemma KeywordEndings(p: nat)
    requires p < Passes()
    ensures var (n, m) := (|Keyword(p)|, Marker(p));
            && n >= 5 && |m| == n + 1 && m[n] == Separator(p) && Keyword(p)[n - 1] == m[n - 1]
            && (n == 5 ==> p % |KEYWORDS| == 3)
            && (p % |KEYWORDS| != 0 && m[n - 1] == 'd' ==> m[n - 2] == 'w')
            && (m[n - 1] == 'd' ==> m[n - 2] != 'a') && m[n - 1] != 'a' && m[n - 1] != ':' && m[n - 1] != 'z'
  {
    MarkerShape(p);
  }

  // The last characters of a marker found in a field.
  lemma MarkerEnding(f: string, p: nat, i: int)
    requires p < Passes() && At(Lower(f), Marker(p), i)
    ensures var n := |Keyword(p)|;
            && n >= 5 && 0 <= i && i + n < |f| && ToLower(f[i + n]) == Separator(p)
            && ToLower(f[i + n - 1]) == Marker(p)[n - 1] && ToLower(f[i + n - 2]) == Marker(p)[n - 2]
  {
    KeywordEndings(p);
    var n := |Keyword(p)|;
    assert Marker(p)[n] == ToLower(f[i + n]);
    assert Marker(p)[n - 1] == ToLower(f[i + n - 1]);
    assert Marker(p)[n - 2] == ToLower(f[i + n - 2]);
  }

  lemma LastCharacters(f: string, p: nat)
    requires p < Passes() && EndsWith(f, Keyword(p))
    ensures |Keyword(p)| >= 5 && ToLower(f[|f| - 1]) == Marker(p)[|Keyword(p)| - 1]
    ensures ToLower(f[|f| - 2]) == Marker(p)[|Keyword(p)| - 2]
  {
    KeywordEndings(p);
    var w := Keyword(p);
    assert w[|w| - 1] == ToLower(f[|f| - 1]);
    assert w[|w| - 2] == ToLower(f[|f| - 2]);
  }

  predicate Absent(f: string, p: nat)
    requires p < Passes()
  {
    if Separator(p) == ' ' then !EndsWith(f, Keyword(p)) else FindFrom(Lower(f), Marker(p), 0) < 0
  }

  lemma OnlyThePasswordMarker(f: string, p: nat)
    requires p < Passes() && p != 0 && (f == "password=a" || f == "password=b")
    ensures Absent(f, p)
  {
    hide At, FindFrom, Marker, EndsWith, Keyword;
    KeywordEndings(p);
    if !Absent(f, p) {
      if Separator(p) == ' ' {
        LastCharacters(f, p);
        KeywordsEndInAFewLetters(p);
      } else {
        MarkerEnding(f, p, FindFrom(Lower(f), Marker(p), 0));
      }
    }
  }

  lemma KeywordsEndInAFewLetters(p: nat)
    requires p < Passes()
    ensures |Keyword(p)| >= 5 && Marker(p)[|Keyword(p)| - 1] in "dtny"
  {
    MarkerShape(p);
  }

  lemma OnlyTheTokenMarker(f: string, p: nat)
    requires p < Passes() && p != 11 && (f == "bad" || f == "token:" || f == "xyz")
    ensures Absent(f, p)
  {
    hide At, FindFrom, Marker, EndsWith, Keyword;
    KeywordEndings(p);
    KeywordsEndInAFewLetters(p);
    if !Absent(f, p) {
      if Separator(p) == ' ' {
        LastCharacters(f, p);
      } else {
        MarkerEnding(f, p, FindFrom(Lower(f), Marker(p), 0));
      }
    }
  }

  lemma MarkerStarts(f: string, p: nat)
    requires p < Passes() && |Marker(p)| <= |f| && Lower(f)[..|Marker(p)|] == Marker(p)
    ensures FindFrom(Lower(f), Marker(p), 0) == 0
  {
    assert forall k :: 0 <= k < |Marker(p)| ==> Marker(p)[k] == Lower(f)[..|Marker(p)|][k];
    FirstIs(Lower(f), Marker(p), 0);
  }

  // A text in which one = or : marker occurs is masked by cutting one field.
  lemma OneCut(t: Text, q: nat)
    requires WellFormed(t) && IsInner(q) && Present(t, q)
    requires forall p: nat :: p < Passes() && p != q ==> !Present(t, p)
    ensures MaskedText(Flat(t)) == Flat(CutField(t, Marker(q)))
  {
    hide Present, Occurs, Marker, HasMarker, After, Rewrite, WellFormed;
    forall p: nat | p < Passes()
      ensures Occurs(Flat(t), Marker(p)) <==> p == q
    {
      PresentIffOccurs(t, p);
    }
    OccursMeansHasMarker(Flat(t), q, Passes());
    OneMarkerOneRewrite(Flat(t), q, Passes());
    InnerMarkerHasNoStops(q);
    CutIsFlatRewrite(t, Marker(q));
  }

  function TwoPasswords(): Text {
    Then("password=a", ' ', Only("password=b"))
  }

  lemma CutFirstPassword()
    ensures Flat(CutField(TwoPasswords(), Marker(0))) == "password=*** password=b"
    ensures Present(TwoPasswords(), 0)
  {
    hide FindFrom, At;
    MarkerStarts("password=a", 0);
    assert "password=a"[..9] == "password=";
  }

  lemma NoOtherPasswordMarker(p: nat)
    requires p < Passes() && p != 0
    ensures !Present(TwoPasswords(), p)
  {
    hide FindFrom, At, EndsWith, Marker, Keyword;
    OnlyThePasswordMarker("password=a", p);
    OnlyThePasswordMarker("password=b", p);
    assert !Present(Only("password=b"), p);
  }

  /** A second password is not masked. */
  lemma SecondPasswordStays()
    ensures MaskedText("password=a password=b") == "password=*** password=b"
  {
    hide MaskedText, CutField, Present, Marker;
    assert Flat(TwoPasswords()) == "password=a password=b";
    CutFirstPassword();
    forall p: nat | p < Passes() && p != 0
      ensures !Present(TwoPasswords(), p)
    {
      NoOtherPasswordMarker(p);
    }
    OneCut(TwoPasswords(), 0);
  }

  function SpacedToken(): Text {
    Then("bad", ' ', Then("token:", ' ', Only("xyz")))
  }

  lemma CutToken()
    ensures Flat(CutField(SpacedToken(), Marker(11))) == "bad token:*** xyz"
    ensures Present(SpacedToken(), 11)
  {
    hide FindFrom, At;
    NoMarkerInBad();
    MarkerStarts("token:", 11);
    assert "token:"[..6] == "token:";
    assert Present(Then("token:", ' ', Only("xyz")), 11);
  }

  lemma NoOtherTokenMarker(p: nat)
    requires p < Passes() && p != 11
    ensures !Present(SpacedToken(), p)
  {
    hide FindFrom, At, EndsWith, Marker, Keyword;
    OnlyTheTokenMarker("bad", p);
    OnlyTheTokenMarker("token:", p);
    OnlyTheTokenMarker("xyz", p);
    assert !Present(Only("xyz"), p);
    assert !Present(Then("token:", ' ', Only("xyz")), p);
  }

  /** A value behind a colon and a space is not masked: only the empty text between them is. */
  lemma SpacedTokenStays()
    ensures MaskedText("bad token: xyz") == "bad token:*** xyz"
  {
    hide MaskedText, CutField, Present, Marker;
    assert Flat(SpacedToken()) == "bad token: xyz";
    CutToken();
    forall p: nat | p < Passes() && p != 11
      ensures !Present(SpacedToken(), p)
    {
      NoOtherTokenMarker(p);
    }
    OneCut(SpacedToken(), 11);
  }

  lemma NoMarkerInBad()
    ensures FindFrom(Lower("bad"), Marker(11), 0) < 0
  {
  }

  // ----- A marker inside the marker of an earlier field -----

  function TwoSecrets(): Text {
    Then("client_secret=a", ' ', Only("secret=b"))
  }

  // Both fields have one place where a marker can end.
  lemma OnePlace(f: string, q: nat)
    requires Holds(f, q) && (f == "client_secret=a" || f == "secret=b")
    ensures End(f, q) == if f == "secret=b" then 7 else 14
  {
    hide At, FindFrom, Marker, Keyword;
    KeywordEndings(q);
    MarkerEnding(f, q, End(f, q) - |Marker(q)|);
  }

  // Whatever marker the second field holds, the first one holds it too.
  lemma SecondIsInFirst(q: nat)
    requires Holds("secret=b", q)
    ensures Holds("client_secret=a", q)
  {
    hide FindFrom, Marker, Keyword;
    var f, g := "client_secret=a", "secret=b";
    OnePlace(g, q);
    var i := 7 - |Marker(q)|;
    assert forall j :: 0 <= j < 7 ==> g[j] == f[7 + j];
    assert At(Lower(f), Marker(q), 7 + i);
    HeldAt(f, q, 7 + i);
  }

  lemma FirstHoldsClientSecret()
    ensures Holds("client_secret=a", 7)
  {
    MarkerStarts("client_secret=a", 7);
  }

  lemma NoKeywordBehindA()
    ensures !EndsWithKeyword("client_secret=a")
  {
    hide EndsWith, At, Occurs;
    if EndsWithKeyword("client_secret=a") {
      var k :| 0 <= k < |KEYWORDS| && EndsWith("client_secret=a", KEYWORDS[k]);
      assert KEYWORDS[k] == Keyword(k);
      LastCharacters("client_secret=a", k);
      KeywordEndings(k);
    }
  }

  // All the markers of the first field end at one place, so each of them is left there when its pass comes.
  lemma FirstSecretIsLeft(q: nat)
    requires Holds("client_secret=a", q)
    ensures IsLeft(TwoSecrets(), q, 0)
  {
    hide Occurs, Marker, Takes;
    OnePlace("client_secret=a", q);
    forall p: nat | p < q && Cuts(TwoSecrets(), p, 0)
      ensures End("client_secret=a", q) <= End("client_secret=a", p)
    {
      OnePlace("client_secret=a", p);
    }
  }

  lemma TakenSecrets(q: nat)
    requires q < Passes()
    ensures Cuts(TwoSecrets(), 7, 0) && !Cuts(TwoSecrets(), q, 1)
  {
    hide Holds, IsLeft;
    var t := TwoSecrets();
    assert Field(t, 0) == "client_secret=a" && Field(t, 1) == Field(t.rest, 0) == "secret=b";
    FirstHoldsClientSecret();
    FirstSecretIsLeft(7);
    TakenAtMostOnce(t, 7, 0);
    if Holds("secret=b", q) {
      SecondIsInFirst(q);
      FirstSecretIsLeft(q);
      TakenAtMostOnce(t, q, 0);
    }
  }

  lemma SecretsAreNotDropped(k: nat)
    requires k < 2
    ensures !IsDropped(TwoSecrets(), k, Passes())
  {
    hide EndsWithKeyword, IsDropped;
    NoKeywordBehindA();
    if IsDropped(TwoSecrets(), k, Passes()) {
      DropsBehindKeyword(TwoSecrets(), k);
    }
  }

  lemma ResultOfTwoSecrets(k: nat, g: string)
    requires k < 2 && IsResult(TwoSecrets(), k, g, Passes())
    ensures g == if k == 0 then "client_secret=***" else "secret=b"
  {
    hide IsDropped, Cuts, Holds, Marker, End;
    var t := TwoSecrets();
    assert Field(t, 0) == "client_secret=a" && Field(t, 1) == Field(t.rest, 0) == "secret=b";
    SecretsAreNotDropped(k);
    TakenSecrets(7);
    if k == 0 {
      FirstHoldsClientSecret();
      var q := ShortestCut(t, 0, g, 7);
      OnePlace("client_secret=a", q);
      assert "client_secret=a"[..14] == "client_secret=";
    } else {
      forall q: nat | q < Passes()
        ensures !Cuts(t, q, 1)
      {
        TakenSecrets(q);
      }
    }
  }

  lemma TwoSecretsMasked()
    requires Split("client_secret=a secret=b") == TwoSecrets()
    ensures var u := Split(MaskedText("client_secret=a secret=b"));
            Fields(u) == 2 && Field(u, 0) == "client_secret=***" && Field(u, 1) == "secret=b"
  {
    hide HasMarker, MaskedText, Split, IsResult, Holds, Marker;
    var s := "client_secret=a secret=b";
    FirstHoldsClientSecret();
    HeldMeansHasMarker(s, 0, 7);
    FieldIsExact(s, 0);
    FieldIsExact(s, 1);
    ResultOfTwoSecrets(0, Field(Split(MaskedText(s)), 0));
    ResultOfTwoSecrets(1, Field(Split(MaskedText(s)), 1));
  }

  lemma {:induction false} SameFieldsSameText(t: Text, u: Text)
    requires SameStops(t, u) && Fields(u) == Fields(t)
    requires forall k :: 0 <= k < Fields(t) ==> Field(t, k) == Field(u, k)
    ensures t == u
  {
    assert Field(t, 0) == Field(u, 0);
    if t.Then? {
      assert forall k :: 0 <= k < Fields(t.rest) ==> Field(t.rest, k) == Field(t, k + 1);
      assert forall k :: 0 <= k < Fields(t.rest) ==> Field(u.rest, k) == Field(u, k + 1);
      SameFieldsSameText(t.rest, u.rest);
    }
  }

  lemma SecretsWithMask(u: Text)
    requires SameStops(TwoSecrets(), u) && Fields(u) == 2
    requires Field(u, 0) == "client_secret=***" && Field(u, 1) == "secret=b"
    ensures Flat(u) == "client_secret=*** secret=b"
  {
    var v := Then("client_secret=***", ' ', Only("secret=b"));
    assert Field(v, 1) == Field(v.rest, 0);
    SameFieldsSameText(v, u);
  }

  /** Each keyword is assigned once, and the second value is not masked: `secret=` is in the first
      field too. */
  lemma SecretAfterClientSecretStays()
    ensures MaskedText("client_secret=a secret=b") == "client_secret=*** secret=b"
  {
    hide MaskedText, Split, HasMarker, Holds, FieldMasked, AfterKeyword, SameStops, Marker;
    var s, t := "client_secret=a secret=b", TwoSecrets();
    assert Flat(t) == s;
    SplitIsUnique(t);
    TwoSecretsMasked();
    FirstHoldsClientSecret();
    HeldMeansHasMarker(s, 0, 7);
    MaskedTextStructure(s);
    SecretsWithMask(Split(MaskedText(s)));
  }

  // ----- A keyword and a space, twice -----

  function SpacedTwice(): Text {
    Then("secret", ' ', Then("a", ' ', Then("secret", ' ', Only("b"))))
  }

  lemma OnlyTheSecretMarker(f: string, p: nat)
    requires p < Passes() && p != 18 && (f == "secret" || f == "a" || f == "b")
    ensures Absent(f, p)
  {
    hide At, FindFrom, Marker, EndsWith, Keyword;
    KeywordEndings(p);
    KeywordsEndInAFewLetters(p);
    if !Absent(f, p) {
      if Separator(p) == ' ' {
        LastCharacters(f, p);
        EndsNoLongerThanField(f, p);
      } else {
        MarkerEnding(f, p, FindFrom(Lower(f), Marker(p), 0));
      }
    }
  }

  lemma EndsNoLongerThanField(f: string, p: nat)
    requires p < Passes() && EndsWith(f, Keyword(p))
    ensures |Keyword(p)| <= |f|
    ensures |Keyword(p)| <= 6 && Marker(p)[|Keyword(p)| - 1] == 't' ==> p % |KEYWORDS| == 2
  {
  }

  lemma NoOtherSpacedMarker(p: nat)
    requires p < Passes() && p != 18
    ensures !Present(SpacedTwice(), p)
  {
    hide FindFrom, At, EndsWith, Marker, Keyword;
    OnlyTheSecretMarker("secret", p);
    OnlyTheSecretMarker("a", p);
    OnlyTheSecretMarker("b", p);
    assert !Present(Only("b"), p);
    assert !Present(Then("secret", ' ', Only("b")), p);
    assert !Present(Then("a", ' ', Then("secret", ' ', Only("b"))), p);
  }

  // A text in which one keyword and a space occur is masked by dropping one field.
  lemma OneDrop(t: Text, q: nat)
    requires WellFormed(t) && q < Passes() && Separator(q) == ' ' && Present(t, q)
    requires forall p: nat :: p < Passes() && p != q ==> !Present(t, p)
    ensures MaskedText(Flat(t)) == Flat(DropField(t, Keyword(q)))
  {
    hide Present, Occurs, HasMarker, After, Rewrite, WellFormed;
    forall p: nat | p < Passes()
      ensures Occurs(Flat(t), Marker(p)) <==> p == q
    {
      PresentIffOccurs(t, p);
    }
    OccursMeansHasMarker(Flat(t), q, Passes());
    OneMarkerOneRewrite(Flat(t), q, Passes());
    MarkerShape(q);
    assert NoStops(Keyword(q));
    DropIsFlatRewrite(t, Keyword(q));
  }

  lemma EndsWithSecret()
    ensures EndsWith("secret", Keyword(18))
  {
  }

  lemma DropFirstSpaced()
    ensures Flat(DropField(SpacedTwice(), Keyword(18))) == "secret *** secret b"
    ensures Present(SpacedTwice(), 18)
  {
    hide EndsWith, Keyword, At, FindFrom;
    EndsWithSecret();
    assert DropField(SpacedTwice(), Keyword(18))
        == Then("secret", ' ', Then(MASK, ' ', Then("secret", ' ', Only("b"))));
  }

  /** The second of two keywords with a space keeps its value. */
  lemma SecondSpacedValueStays()
    ensures MaskedText("secret a secret b") == "secret *** secret b"
  {
    hide MaskedText, DropField, Present, Marker, Keyword;
    assert Flat(SpacedTwice()) == "secret a secret b";
    DropFirstSpaced();
    forall p: nat | p < Passes() && p != 18
      ensures !Present(SpacedTwice(), p)
    {
      NoOtherSpacedMarker(p);
    }
    OneDrop(SpacedTwice(), 18);
  }

  // ----- A marker behind the value of another -----

  function TokenInPassword(): Text {
    Then("password=token:x", ' ', Only("token:y"))
  }

  lemma KeywordEndingInN(p: nat)
    requires p < Passes()
    ensures |Keyword(p)| >= 5 && (Marker(p)[|Keyword(p)| - 1] == 'n' ==> p % |KEYWORDS| == 3)
  {
    MarkerShape(p);
  }

  lemma MarkersOfTokenInPassword(f: string, q: nat)
    requires Holds(f, q) && (f == "password=token:x" || f == "token:y")
    ensures if f == "token:y" then q == 11 && End(f, q) == 6
            else (q == 0 && End(f, q) == 9) || (q == 11 && End(f, q) == 15)
  {
    hide At, FindFrom, Marker, Keyword;
    KeywordEndings(q);
    MarkerEnding(f, q, End(f, q) - |Marker(q)|);
    if Separator(q) == ':' {
      KeywordEndingInN(q);
    }
  }

  lemma HeldByTokenInPassword()
    ensures Holds("password=token:x", 0) && Holds("password=token:x", 11) && Holds("token:y", 11)
  {
    MarkerStarts("password=token:x", 0);
    MarkerStarts("token:y", 11);
    assert At(Lower("password=token:x"), Marker(11), 9);
    HeldAt("password=token:x", 11, 9);
  }

  // The first field is taken for its password, which leaves the second for its token.
  lemma TakenByTokenInPassword()
    ensures Cuts(TokenInPassword(), 0, 0) && Cuts(TokenInPassword(), 11, 1)
  {
    hide Holds, Marker;
    var t := TokenInPassword();
    assert Field(t, 0) == "password=token:x" && Field(t, 1) == Field(t.rest, 0) == "token:y";
    HeldByTokenInPassword();
    MarkersOfTokenInPassword("password=token:x", 0);
    MarkersOfTokenInPassword("password=token:x", 11);
    assert IsLeft(t, 0, 0);
    assert Cuts(t, 0, 0);
    assert !IsLeft(t, 11, 0);
    forall p: nat | p < 11 && Cuts(t, p, 1)
      ensures false
    {
      MarkersOfTokenInPassword("token:y", p);
    }
    assert IsLeft(t, 11, 1);
  }

  lemma NoKeywordEndsInX(k: nat)
    requires k < 2
    ensures !IsDropped(TokenInPassword(), k, Passes())
  {
    hide EndsWith, At, Occurs, IsDropped;
    if IsDropped(TokenInPassword(), k, Passes()) {
      DropsBehindKeyword(TokenInPassword(), k);
      var f := "password=token:x";
      var i :| 0 <= i < |KEYWORDS| && EndsWith(f, KEYWORDS[i]);
      assert KEYWORDS[i] == Keyword(i);
      KeywordsEndInAFewLetters(i);
      LastCharacters(f, i);
    }
  }

  lemma CutInTokenInPassword(f: string, q: nat)
    requires Holds(f, q) && (f == "token:y" || (f == "password=token:x" && End(f, q) <= 9))
    ensures f[..End(f, q)] + MASK == if f == "token:y" then "token:***" else "password=***"
  {
    hide Holds, End;
    MarkersOfTokenInPassword(f, q);
    assert "password=token:x"[..9] == "password=" && "token:y"[..6] == "token:";
  }

  lemma ResultOfTokenInPassword(k: nat, g: string)
    requires k < 2 && IsResult(TokenInPassword(), k, g, Passes())
    ensures g == if k == 0 then "password=***" else "token:***"
  {
    hide IsDropped, IsResult, Cuts, Marker, Holds, End;
    var t := TokenInPassword();
    assert Field(t, 0) == "password=token:x" && Field(t, 1) == Field(t.rest, 0) == "token:y";
    NoKeywordEndsInX(k);
    TakenByTokenInPassword();
    HeldByTokenInPassword();
    MarkersOfTokenInPassword("password=token:x", 0);
    var q := ShortestCut(t, k, g, if k == 0 then 0 else 11);
    CutInTokenInPassword(Field(t, k), q);
  }

  /** Both values are masked although `token:` is in both fields. */
  lemma TokenInPasswordIsMasked()
    ensures MaskedText("password=token:x token:y") == "password=*** token:***"
  {
    hide MaskedText, Split, HasMarker, Holds, FieldMasked, AfterKeyword, SameStops, Marker, IsResult;
    var s, t := "password=token:x token:y", TokenInPassword();
    assert Flat(t) == s;
    SplitIsUnique(t);
    HeldByTokenInPassword();
    HeldMeansHasMarker(s, 0, 0);
    MaskedTextStructure(s);
    FieldIsExact(s, 0);
    FieldIsExact(s, 1);
    var u := Split(MaskedText(s));
    ResultOfTokenInPassword(0, Field(u, 0));
    ResultOfTokenInPassword(1, Field(u, 1));
    TwoMaskedFields(u);
  }

  lemma TwoMaskedFields(u: Text)
    requires SameStops(TokenInPassword(), u) && Fields(u) == 2
    requires Field(u, 0) == "password=***" && Field(u, 1) == "token:***"
    ensures Flat(u) == "password=*** token:***"
  {
    var v := Then("password=***", ' ', Only("token:***"));
    assert Field(v, 1) == Field(v.rest, 0);
    SameFieldsSameText(v, u);
  }
}

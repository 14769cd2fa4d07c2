/** All of `mask_sensitive_value`: which texts are masked as a URL and which as a text, and what comes
    back. */
module UrlBranch {
  import opened Texts
  import opened Wrappers
  import opened Masking
  import opened MaskingFields
  import opened MaskingTheorems
  import opened MaskingConditions
  import opened MaskingExactness
  import opened MaskingAssignment
  import opened MaskingExamples
  import opened QueryMasking
  import opened UrlAuthority
  import opened UrlSplitting
  import opened UrlPrinting

  // The library refuses a single bracket, and checks what stands between two.
  predicate IsAccepted(netloc: string, lib: Library) {
    ('[' in netloc <==> ']' in netloc) && ('[' in netloc ==> lib.isHost(Before(Behind(netloc, '['), ']')))
  }

  predicate IsReadable(netloc: string, lib: Library) {
    IsAccepted(netloc, lib) && MaskedAuthority(netloc).Some?
  }

  predicate IsUrl(raw: string, lib: Library) {
    LooksLikeUrl(Cleaned(raw)) && IsReadable(SplitUrl(raw).netloc, lib)
  }

  ghost function MaskedValue(raw: Option<string>, lib: Library): Option<string>
    requires raw.Some? ==> IsBytes(raw.value)
  {
    if raw.None? then None
    else if raw.value == "" then Some("")
    else if IsUrl(raw.value, lib) then Some(Printed(MaskedUrl(raw.value), lib))
    else Some(MaskedText(raw.value))
  }

  method MaskSensitiveValue(raw: Option<string>, lib: Library) returns (r: Option<string>)
    requires raw.Some? ==> IsBytes(raw.value)
    ensures r == MaskedValue(raw, lib)
  {
    hide SplitUrl, Cleaned, LooksLikeUrl, IsAccepted, MaskedAuthority, MaskedQuery, MaskedText, IsBytes, Printed;
    if raw.None? {
      return None;
    }
    if raw.value == "" {
      return Some(raw.value);
    }
    var parsed := SplitUrl(raw.value);
    BranchIff(raw.value);
    QueryIsBytes(raw.value);
    if IsAccepted(parsed.netloc, lib) && parsed.scheme != "" && (parsed.netloc != "" || parsed.path != "") {
      var netloc := MaskedAuthority(parsed.netloc);
      if netloc.Some? {
        var query := MaskQuery(parsed.query);
        return Some(Printed(UrlParts(parsed.scheme, netloc.value, parsed.path, query, parsed.fragment), lib));
      }
    }
    var text := MaskText(raw.value);
    return Some(text);
  }

  // ----- What each branch does with a value -----

  /** In a text that is no URL, a value is hidden if and only if it is the mask already, its field was
      dropped, or some marker up to its own took the field; so it is if no earlier field holds the marker. */
  lemma MessageIsMasked(value: string, lib: Library, k: nat, q: nat)
    requires IsBytes(value) && value != "" && !IsUrl(value, lib)
    requires k < Fields(Split(value)) && Holds(Field(Split(value), k), q)
    ensures var r, t := MaskedValue(Some(value), lib), Split(value);
            && r.Some? && Fields(Split(r.value)) == Fields(t)
            && var (f, g) := (Field(t, k), Field(Split(r.value), k));
               && (Hidden(f, g, q) <==> Hidden(f, f, q) || IsDropped(t, k, Passes()) || IsCutUpTo(t, k, q))
               && (IsFresh(t, k, q) ==> Hidden(f, g, q))
  {
    hide IsUrl, MaskedText, IsFresh, CutWithin, Holds, IsDropped, IsCutUpTo;
    ValueIsHiddenIff(value, k, q);
    if IsFresh(Split(value), k, q) {
      FreshMarkerHidesValue(value, k, q);
    }
  }

  // Nothing of the text is an authority, a query or a fragment.
  predicate IsPath(rest: string) {
    HasTarget(rest) && !HasAuthority(rest) && '?' !in rest && '#' !in rest
  }

  lemma NoQueryToMask()
    ensures MaskedQuery("") == ""
  {
    NothingToParse();
  }

  lemma PathOnly(scheme: string, rest: string)
    requires IsPath(rest)
    ensures SplitRest(scheme, rest) == UrlParts(scheme, "", rest, "", "")
  {
    hide IndexOf;
    assert rest[0..] == rest;
  }

  lemma PathPrinted(scheme: string, path: string, lib: Library)
    ensures Printed(UrlParts(scheme, "", path, "", ""), lib) == Front(scheme, "", path, lib)
  {
    assert path + "" == path && RootedPath(path) + "" == RootedPath(path);
    assert scheme + ":" + ("//" + "" + RootedPath(path)) == scheme + "://" + RootedPath(path);
  }

  /** A word and a colon in front of anything: if the word can be a scheme, and what follows can be a
      path, all of it comes back readable; and if the word cannot be a scheme, it is masked as text. */
  lemma ColonBehindWord(word: string, rest: string, lib: Library)
    requires word != "" && word[0] > ' ' && ':' !in word && IsBytes(word) && IsBytes(rest)
    requires forall i :: 0 <= i < |word| ==> !IsBreak(word[i])
    ensures var r := MaskedValue(Some(word + ":" + rest), lib);
            && (!IsScheme(word) || !HasTarget(WithoutBreaks(rest)) ==> r == Some(MaskedText(word + ":" + rest)))
            && (IsScheme(word) && IsPath(WithoutBreaks(rest)) ==>
                  r == Some(Front(Lower(word), "", WithoutBreaks(rest), lib)))
  {
    hide WithoutBreaks, Cleaned, IsScheme, MaskedText, MaskedAuthority, MaskedQuery, SplitRest, LooksLikeUrl, SplitUrl,
         HasTarget, HasAuthority, Printed, Front;
    if IsScheme(word) {
      SchemeAndRest(word, rest);
      if IsPath(WithoutBreaks(rest)) {
        PathOnly(Lower(word), WithoutBreaks(rest));
        PathPrinted(Lower(word), WithoutBreaks(rest), lib);
        EmptyAuthority();
        NoQueryToMask();
      }
    } else {
      NotAScheme(word, rest);
    }
  }

  /** So of the eight keywords, those without an underscore give away a value behind a colon that the
      text begins with. */
  lemma KeywordAsScheme(k: nat, rest: string, lib: Library)
    requires k < |KEYWORDS| && IsBytes(rest) && IsPath(WithoutBreaks(rest))
    ensures var text := KEYWORDS[k] + ":" + rest;
            IsBytes(text) && MaskedValue(Some(text), lib) ==
              Some(if '_' in KEYWORDS[k] then MaskedText(text)
                   else Front(KEYWORDS[k], "", WithoutBreaks(rest), lib))
  {
    hide WithoutBreaks, IsPath, MaskedText, IsScheme, MaskedValue, Front;
    KeywordIsSchemeIff(k);
    ColonBehindWord(KEYWORDS[k], rest, lib);
  }

  lemma KeywordIsSchemeIff(k: nat)
    requires k < |KEYWORDS|
    ensures var word := KEYWORDS[k];
            && word != "" && word[0] > ' ' && ':' !in word && IsBytes(word) && Lower(word) == word
            && (forall i :: 0 <= i < |word| ==> !IsBreak(word[i]))
            && (IsScheme(word) <==> '_' !in word)
  {
    KeywordsAreWords(k);
    var word := KEYWORDS[k];
    assert forall i :: 0 <= i < |word| ==> IsWordChar(word[i]);
    assert IsLetter(word[0]);
    if '_' !in word {
      assert forall i :: 0 <= i < |word| ==> word[i] != '_';
    }
  }

  // ----- Texts whose secret stays -----

  lemma SpacedValueIsPath(rest: string)
    requires rest == " password=a" || rest == " xyz"
    ensures IsPath(WithoutBreaks(rest)) && WithoutBreaks(rest) == rest && IsBytes(rest)
  {
    hide WithoutBreaks;
    NoBreaksToDrop(rest);
  }

  /** A message with a word and a colon in front of it is a URL, and its password stays. */
  lemma PasswordInUrlPathStays(lib: Library)
    requires "error" !in lib.netlocSchemes
    ensures MaskedValue(Some("error: password=a"), lib) == Some("error: password=a")
  {
    hide MaskedValue, IsPath, WithoutBreaks, HasTarget;
    SpacedValueIsPath(" password=a");
    assert IsScheme("error");
    ColonBehindWord("error", " password=a", lib);
    assert Lower("error") == "error";
    assert "error" + ":" + " password=a" == "error: password=a";
  }

  /** So is `token: xyz`. */
  lemma TokenAndColonStays(lib: Library)
    requires "token" !in lib.netlocSchemes
    ensures MaskedValue(Some("token: xyz"), lib) == Some("token: xyz")
  {
    hide MaskedValue, IsPath, WithoutBreaks;
    SpacedValueIsPath(" xyz");
    assert IsScheme("token");
    ColonBehindWord("token", " xyz", lib);
    assert Lower("token") == "token";
    assert "token" + ":" + " xyz" == "token: xyz";
  }

  /** With a word in front it is a message, and the value stays too. */
  lemma SpacedTokenIsMessage(lib: Library)
    ensures MaskedValue(Some("bad token: xyz"), lib) == Some("bad token:*** xyz")
  {
    hide MaskedValue, WithoutBreaks, MaskedText;
    var word := "bad token";
    assert word[3] == ' ' && !IsScheme(word);
    SpacedValueIsPath(" xyz");
    ColonBehindWord(word, " xyz", lib);
    assert word + ":" + " xyz" == "bad token: xyz";
    SpacedTokenStays();
  }
}

/** The password of a URL: when exactly the masked form does not depend on it. */
module UrlPasswords {
  import opened Texts
  import opened Wrappers
  import opened Masking
  import opened MaskingFields
  import opened MaskingTheorems
  import opened MaskingGuarantees
  import opened MaskingExamples
  import opened QueryMasking
  import opened UrlAuthority
  import opened UrlSplitting
  import opened UrlPrinting
  import opened UrlBranch

  // A URL but for its password.
  datatype Site = Site(scheme: string, user: string, host: string, tail: string)

  predicate IsPassword(s: string) {
    IsBytes(s) && NoEnds(s) && NoBreaks(s)
  }

  predicate IsSite(site: Site) {
    && IsScheme(site.scheme) && StartsTail(site.tail) && ':' !in site.user && '@' !in site.host
    && IsPassword(site.user) && IsPassword(site.host) && IsBytes(site.tail)
  }

  function Login(site: Site, password: string): string {
    site.user + ":" + password + "@" + site.host
  }

  function UrlText(site: Site, password: string): string {
    site.scheme + "://" + Login(site, password) + site.tail
  }

  lemma LoginIsLogin(site: Site, password: string)
    requires IsSite(site) && IsPassword(password)
    ensures IsLogin(Login(site, password)) && IsBytes(UrlText(site, password))
  {
    hide IsScheme, StartsTail;
    var netloc := Login(site, password);
    assert netloc[|site.user|] == ':';
    assert NoEnds(netloc) && NoBreaks(netloc);
    forall i | 0 <= i < |netloc|
      ensures !EndsAuthority(netloc[i]) && !IsBreak(netloc[i])
    {
      assert netloc[i] in netloc;
    }
    SchemeIsNotEmpty(site.scheme);
  }

  ghost function MaskedForm(site: Site, password: string, lib: Library): Option<string>
    requires IsSite(site) && IsPassword(password)
  {
    LoginIsLogin(site, password);
    MaskedValue(Some(UrlText(site, password)), lib)
  }

  // ----- The two forms -----

  lemma IsUrlIff(site: Site, password: string, lib: Library)
    requires IsSite(site) && IsPassword(password)
    ensures SplitUrl(UrlText(site, password)).netloc == Login(site, password)
    ensures IsUrl(UrlText(site, password), lib) <==> IsReadable(Login(site, password), lib)
  {
    hide SplitRest, SplitUrl, LooksLikeUrl, Cleaned, IsScheme, IsReadable, WithoutBreaks, StartsTail, IsLogin, IsBytes;
    LoginIsLogin(site, password);
    LoginUrl(site.scheme, Login(site, password), site.tail);
    AuthorityIsRead(Lower(site.scheme), Login(site, password), WithoutBreaks(site.tail));
  }

  lemma FormOfMessage(site: Site, password: string, lib: Library)
    requires IsSite(site) && IsPassword(password) && !IsReadable(Login(site, password), lib)
    ensures MaskedForm(site, password, lib) == Some(MaskedText(UrlText(site, password)))
  {
    hide SplitUrl, IsUrl, IsReadable, IsSite, IsPassword, MaskedText, IsBytes;
    IsUrlIff(site, password, lib);
    LoginIsLogin(site, password);
    assert UrlText(site, password) != "";
  }

  lemma SameAuthority(site: Site, p: string, q: string)
    requires IsSite(site)
    ensures MaskedAuthority(Login(site, p)) == MaskedAuthority(Login(site, q))
  {
    hide MaskedAuthority;
    PasswordIsHidden(site.user, p, site.host);
    PasswordIsHidden(site.user, q, site.host);
  }

  lemma ReadableFormsAreSame(site: Site, p: string, q: string, lib: Library)
    requires IsSite(site) && IsPassword(p) && IsPassword(q)
    requires IsReadable(Login(site, p), lib) && IsReadable(Login(site, q), lib)
    ensures MaskedForm(site, p, lib) == MaskedForm(site, q, lib)
  {
    hide SplitRest, SplitUrl, LooksLikeUrl, Cleaned, IsScheme, MaskedAuthority, IsAccepted, WithoutBreaks, StartsTail,
         IsLogin, MaskedQuery, IsBytes, Printed;
    IsUrlIff(site, p, lib);
    IsUrlIff(site, q, lib);
    assert UrlText(site, p) != "" && UrlText(site, q) != "";
    LoginIsLogin(site, p);
    LoginIsLogin(site, q);
    SameAuthority(site, p, q);
    LoginUrl(site.scheme, Login(site, p), site.tail);
    LoginUrl(site.scheme, Login(site, q), site.tail);
    TailIsRead(Lower(site.scheme), Login(site, p), Login(site, q), WithoutBreaks(site.tail));
    AuthorityIsRead(Lower(site.scheme), Login(site, q), WithoutBreaks(site.tail));
  }

  // ----- Texts with different numbers of fields -----

  function Stops(s: string): nat {
    if s == "" then 0 else (if IsStop(s[0]) then 1 else 0) + Stops(s[1..])
  }

  lemma {:induction false} FieldsAreStops(s: string)
    ensures Fields(Split(s)) == 1 + Stops(s)
  {
    if s != "" {
      FieldsAreStops(s[1..]);
    }
  }

  lemma {:induction false} StopsAppend(a: string, b: string)
    ensures Stops(a + b) == Stops(a) + Stops(b)
  {
    if a == "" {
      assert a + b == b;
    } else {
      assert (a + b)[1..] == a[1..] + b;
      StopsAppend(a[1..], b);
    }
  }

  lemma TokenOccurs(a: string, b: string)
    ensures HasMarker(a + "token=" + b, Passes())
  {
    hide FindFrom, HasMarker;
    var s := a + "token=" + b;
    assert Marker(3) == "token=";
    forall k | 0 <= k < 6
      ensures Lower(s)[|a| + k] == "token="[k]
    {
      assert s[|a| + k] == "token="[k];
    }
    assert At(Lower(s), Marker(3), |a|);
    OccursMeansHasMarker(s, 3, Passes());
  }

  lemma MaskedFields(s: string)
    requires HasMarker(s, Passes())
    ensures Fields(Split(MaskedText(s))) == 1 + Stops(s)
  {
    hide HasMarker, MaskedText;
    MaskedTextStructure(s);
    FieldsAreStops(s);
  }

  // One more stop character in front of the rest leaves one more in the masked text.
  lemma MessagesDiffer(a: string, b: string)
    ensures MaskedText(a + "token=a" + b) != MaskedText(a + "token=a b" + b)
  {
    hide MaskedText, HasMarker, Split;
    var left, right := a + "token=a" + b, a + "token=a b" + b;
    assert left == a + "token=" + ("a" + b) && right == a + "token=" + ("a b" + b);
    TokenOccurs(a, "a" + b);
    TokenOccurs(a, "a b" + b);
    StopsAppend(a + "token=a", b);
    StopsAppend(a + "token=a b", b);
    StopsAppend(a + "token=a", " b");
    assert a + "token=a b" == a + "token=a" + " b";
    assert Stops(" b") == 1 by {
      assert " b"[1..] == "b" && "b"[1..] == "";
    }
    MaskedFields(left);
    MaskedFields(right);
  }

  // ----- Exactly when the password is hidden -----

  predicate IsPlain(s: string) {
    IsPassword(s) && '[' !in s && ']' !in s
  }

  lemma PasswordAppend(a: string, b: string)
    ensures IsPassword(a) && IsPassword(b) ==> IsPassword(a + b)
  {
  }

  ghost predicate ShareForm(site: Site, prefix: string, lib: Library)
    requires IsSite(site) && IsPassword(prefix)
  {
    forall p, q :: IsPlain(p) && IsPlain(q) ==>
      && IsPassword(prefix + p) && IsPassword(prefix + q)
      && MaskedForm(site, prefix + p, lib) == MaskedForm(site, prefix + q, lib)
  }

  // The check of the brackets does not depend on what follows the prefix.
  ghost predicate AcceptsAlike(site: Site, prefix: string, lib: Library) {
    forall p :: IsPlain(p) ==> IsAccepted(Login(site, prefix + p), lib) == IsAccepted(Login(site, prefix), lib)
  }

  lemma UnreadableFormsDiffer(site: Site, prefix: string, lib: Library)
    requires IsSite(site) && IsPassword(prefix)
    requires IsPassword(prefix + "token=a") && !IsReadable(Login(site, prefix + "token=a"), lib)
    requires IsPassword(prefix + "token=a b") && !IsReadable(Login(site, prefix + "token=a b"), lib)
    ensures MaskedForm(site, prefix + "token=a", lib) != MaskedForm(site, prefix + "token=a b", lib)
  {
    hide MaskedForm, MaskedText, IsReadable, IsPassword, IsSite, IsUrl, Printed, SplitUrl, MaskedUrl;
    FormOfMessage(site, prefix + "token=a", lib);
    FormOfMessage(site, prefix + "token=a b", lib);
    var a, b := site.scheme + "://" + site.user + ":" + prefix, "@" + site.host + site.tail;
    assert UrlText(site, prefix + "token=a") == a + "token=a" + b;
    assert UrlText(site, prefix + "token=a b") == a + "token=a b" + b;
    MessagesDiffer(a, b);
  }

  /** For fixed scheme, user, host and tail, and any beginning of the password, brackets included: all
      its continuations without brackets give the same masked form, if and only if the authority can be
      read; where it cannot, the URL is masked as a text. */
  lemma PasswordsShareFormIff(site: Site, prefix: string, lib: Library)
    requires IsSite(site) && IsPassword(prefix) && AcceptsAlike(site, prefix, lib)
    ensures ShareForm(site, prefix, lib) <==> IsReadable(Login(site, prefix), lib)
  {
    hide MaskedForm, IsPassword, IsSite, IsAccepted, MaskedAuthority;
    forall p | IsPlain(p)
      ensures IsPassword(prefix + p)
      ensures IsReadable(Login(site, prefix + p), lib) <==> IsReadable(Login(site, prefix), lib)
    {
      PasswordAppend(prefix, p);
      SameAuthority(site, prefix + p, prefix);
    }
    PlainTokens();
    if IsReadable(Login(site, prefix), lib) {
      forall p, q | IsPlain(p) && IsPlain(q)
        ensures MaskedForm(site, prefix + p, lib) == MaskedForm(site, prefix + q, lib)
      {
        ReadableFormsAreSame(site, prefix + p, prefix + q, lib);
      }
    } else {
      UnreadableFormsDiffer(site, prefix, lib);
    }
  }

  lemma PlainTokens()
    ensures IsPlain("token=a") && IsPlain("token=a b") && IsPlain("") && IsPassword("[")
  {
    var s := "token=a b";
    assert forall c :: c in s ==> c in "tokenab= ";
    assert IsPlain(s);
    assert forall c :: c in "token=a" ==> c in "token=a";
  }

  // Without a bracket in front, the check sees the host only.
  lemma BracketsInHost(before: string, host: string, lib: Library)
    requires '[' !in before && ']' !in before
    ensures IsAccepted(before + host, lib) <==> IsAccepted(host, lib)
  {
    hide IndexOf, Before, Behind;
    if '[' in host {
      CutAtIndex(host, '[');
      IndexIs(before + Before(host, '['), '[', Behind(host, '['));
      assert before + host == before + Before(host, '[') + ['['] + Behind(host, '[');
    }
  }

  lemma LoginAcceptedIff(site: Site, p: string, lib: Library)
    requires IsPlain(p) && '[' !in site.user && ']' !in site.user
    ensures IsAccepted(Login(site, p), lib) <==> IsAccepted(site.host, lib)
  {
    hide IsAccepted;
    BracketsInHost(site.user + ":" + p + "@", site.host, lib);
  }

  lemma HostReadIff(site: Site, p: string)
    requires IsSite(site)
    ensures MaskedAuthority(Login(site, p)).Some? <==> MaskedAuthority(site.host).Some?
  {
    hide MaskedHost, HostInfo, Username, UserPart;
    AuthorityParts(site.user, p, site.host);
    HostWithoutUser(site.host);
  }

  /** All passwords without brackets give the same masked form, if and only if the host and its port can
      be read. */
  lemma UrlPasswordIsHiddenIff(site: Site, lib: Library)
    requires IsSite(site) && '[' !in site.user && ']' !in site.user
    ensures (forall p, q :: IsPlain(p) && IsPlain(q) ==> MaskedForm(site, p, lib) == MaskedForm(site, q, lib))
            <==> IsReadable(site.host, lib)
  {
    hide MaskedForm, IsPassword, IsSite, IsAccepted, MaskedAuthority;
    PlainTokens();
    forall p | IsPlain(p)
      ensures "" + p == p && IsAccepted(Login(site, p), lib) == IsAccepted(site.host, lib)
    {
      LoginAcceptedIff(site, p, lib);
    }
    HostReadIff(site, "");
    PasswordsShareFormIff(site, "", lib);
  }

  lemma LoneBracket(site: Site, a: string, b: string, lib: Library)
    requires ']' !in site.user && ']' !in site.host && ']' !in a && ']' !in b
    ensures !IsAccepted(Login(site, a + "[" + b), lib)
  {
    var netloc := Login(site, a + "[" + b);
    assert netloc[|site.user| + 1 + |a|] == '[';
  }

  /** Behind a bracket in the password, where none is in user and host, the forms differ. */
  lemma BracketShowsPassword(site: Site, lib: Library)
    requires IsSite(site) && '[' !in site.user && ']' !in site.user && '[' !in site.host && ']' !in site.host
    ensures IsPassword("[") && !ShareForm(site, "[", lib)
  {
    hide ShareForm, IsPassword, IsSite, MaskedAuthority, IsAccepted;
    PlainTokens();
    forall p | IsPlain(p)
      ensures !IsAccepted(Login(site, "[" + p), lib)
    {
      assert "" + "[" + p == "[" + p;
      LoneBracket(site, "", p, lib);
    }
    assert "[" + "" == "[";
    PasswordsShareFormIff(site, "[", lib);
  }

  // ----- Two such URLs -----

  lemma OnlyTheTokenEquals(f: string, p: nat)
    requires p < Passes() && p != 3 && (f == "ab://u:pw@h:x?token=z" || f == "ab://u:p[w@h?token=z")
    ensures Absent(f, p)
  {
    hide At, FindFrom, Marker, EndsWith, Keyword;
    KeywordEndings(p);
    KeywordsEndInAFewLetters(p);
    if !Absent(f, p) {
      if Separator(p) == ' ' {
        LastCharacters(f, p);
      } else {
        MarkerEnding(f, p, FindFrom(Lower(f), Marker(p), 0));
        KeywordEndingInN(p);
      }
    }
  }

  lemma TokenEqualsAt(f: string, i: nat)
    requires (f == "ab://u:pw@h:x?token=z" && i == 14) || (f == "ab://u:p[w@h?token=z" && i == 13)
    ensures |Marker(3)| == 6 && IsInner(3) && FindFrom(Lower(f), Marker(3), 0) == i
  {
    hide FindFrom;
    assert Marker(3) == "token=";
    assert At(Lower(f), Marker(3), i);
    forall j | 0 <= j < i
      ensures !At(Lower(f), Marker(3), j)
    {
      assert Lower(f)[j + 5] != Marker(3)[5];
    }
    FirstIs(Lower(f), Marker(3), i);
  }

  lemma TokenInUrlIsMasked(f: string, i: nat)
    requires (f == "ab://u:pw@h:x?token=z" && i == 14) || (f == "ab://u:p[w@h?token=z" && i == 13)
    ensures MaskedText(f) == f[..i + 6] + MASK
  {
    hide At, FindFrom, MaskedText, Marker, Absent, Present;
    var t := Only(f);
    TokenEqualsAt(f, i);
    assert Present(t, 3) by {
      HolderIsPresent(f, 3);
    }
    forall p: nat | p < Passes() && p != 3
      ensures !Present(t, p)
    {
      OnlyTheTokenEquals(f, p);
      AbsentIsNotPresent(f, p);
    }
    OneCut(t, 3);
  }

  lemma HolderIsPresent(f: string, q: nat)
    requires IsInner(q) && FindFrom(Lower(f), Marker(q), 0) >= 0
    ensures Present(Only(f), q)
  {
  }

  lemma AbsentIsNotPresent(f: string, p: nat)
    requires p < Passes() && Absent(f, p)
    ensures !Present(Only(f), p)
  {
    hide EndsWith, FindFrom;
  }

  const BAD_PORT := Site("ab", "u", "h:x", "?token=z")
  const GOOD_PORT := Site("ab", "u", "h", "?token=z")

  lemma PlainWord(s: string)
    requires forall i :: 0 <= i < |s| ==> s[i] in "uhpwx:["
    ensures IsPassword(s)
  {
    assert forall c :: c in s ==> c in "uhpwx:[";
  }

  lemma SiteOfExample(site: Site)
    requires site == BAD_PORT || site == GOOD_PORT
    ensures IsSite(site)
  {
    hide IsPassword;
    PlainWord("u");
    PlainWord(site.host);
  }

  lemma TextOfExample(site: Site, password: string)
    requires (site == BAD_PORT && password == "pw") || (site == GOOD_PORT && password == "p[w")
    ensures UrlText(site, password) == if site == BAD_PORT then "ab://u:pw@h:x?token=z" else "ab://u:p[w@h?token=z"
  {
  }

  lemma BadPortIsRead()
    ensures SplitHost("h:x") == HostPort("h", "x") && ReadPort("x") == None
  {
    hide IndexOf, Before, Behind, LastIndexOf;
    assert "h:x" == "h" + [':'] + "x";
    IndexIs("h", ':', "x");
    assert "x"[0] == 'x';
  }

  lemma HostWithBadPort()
    ensures MaskedAuthority("h:x") == None
  {
    hide HostInfo, Username, SplitHost, ReadPort;
    HostWithoutUser("h:x");
    BadPortIsRead();
  }

  /** With a port that is no number the URL is masked as a text, and its password stays. */
  lemma PasswordBeforeBadPortStays(lib: Library)
    ensures MaskedValue(Some("ab://u:pw@h:x?token=z"), lib) == Some("ab://u:pw@h:x?token=***")
  {
    hide IsSite, IsPassword, MaskedText, IsUrl, MaskedAuthority, IsAccepted;
    SiteOfExample(BAD_PORT);
    PlainWord("pw");
    TextOfExample(BAD_PORT, "pw");
    HostWithBadPort();
    HostReadIff(BAD_PORT, "pw");
    FormOfMessage(BAD_PORT, "pw", lib);
    TokenInUrlIsMasked("ab://u:pw@h:x?token=z", 14);
    assert "ab://u:pw@h:x?token=z"[..20] + MASK == "ab://u:pw@h:x?token=***";
  }

  /** So it is with a single bracket in the password. */
  lemma PasswordWithBracketStays(lib: Library)
    ensures MaskedValue(Some("ab://u:p[w@h?token=z"), lib) == Some("ab://u:p[w@h?token=***")
  {
    hide IsSite, IsPassword, MaskedText, IsUrl, MaskedAuthority, IsAccepted;
    SiteOfExample(GOOD_PORT);
    PlainWord("p[w");
    TextOfExample(GOOD_PORT, "p[w");
    assert "p" + "[" + "w" == "p[w";
    LoneBracket(GOOD_PORT, "p", "w", lib);
    FormOfMessage(GOOD_PORT, "p[w", lib);
    TokenInUrlIsMasked("ab://u:p[w@h?token=z", 13);
    assert "ab://u:p[w@h?token=z"[..19] + MASK == "ab://u:p[w@h?token=***";
  }
}

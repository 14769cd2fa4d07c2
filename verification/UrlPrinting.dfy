/** The masked parts of a URL and how `urlunsplit`, as Python 3.11 has it, prints them: what is read
    when the printed URL is split again. */
module UrlPrinting {
  import opened Texts
  import opened Masking
  import opened QueryMasking
  import opened UrlAuthority
  import opened UrlSplitting

  // What the library decides: which hosts may stand in brackets, and the schemes that are followed by
  // two slashes even when there is no authority.
  datatype Library = Library(isHost: string -> bool, netlocSchemes: set<string>)

  // The query and the fragment as they are printed, with the characters in front of them.
  function Extras(parts: UrlParts): string {
    (if parts.query == "" then "" else "?" + parts.query)
    + if parts.fragment == "" then "" else "#" + parts.fragment
  }

  predicate WritesSlashes(parts: UrlParts, lib: Library) {
    parts.netloc != "" || (parts.scheme in lib.netlocSchemes && !HasAuthority(parts.path))
  }

  // Behind an authority a path begins with a slash.
  function RootedPath(path: string): string {
    if path != "" && path[0] != '/' then "/" + path else path
  }

  function Printed(parts: UrlParts, lib: Library): string {
    parts.scheme + ":" +
    if WritesSlashes(parts, lib) then "//" + parts.netloc + (RootedPath(parts.path) + Extras(parts))
    else parts.path + Extras(parts)
  }

  // Scheme, authority and path as they are written: two slashes in front of an authority, and for some schemes
  // in front of a path, which then begins with a slash of its own.
  function Front(scheme: string, netloc: string, path: string, lib: Library): string {
    if netloc != "" then scheme + "://" + netloc + path
    else if scheme !in lib.netlocSchemes || (|path| >= 2 && path[0] == '/' && path[1] == '/') then scheme + ":" + path
    else scheme + "://" + (if path == "" || path[0] == '/' then path else "/" + path)
  }

  // The URL as it is masked: authority and query anew, the rest as it came.
  function MaskedUrl(raw: string): UrlParts
    requires IsBytes(raw) && MaskedAuthority(SplitUrl(raw).netloc).Some?
  {
    QueryIsBytes(raw);
    var parts := SplitUrl(raw);
    parts.(netloc := MaskedAuthority(parts.netloc).value, query := MaskedQuery(parts.query))
  }

  // ----- Reading printed parts -----

  predicate NoBreaks(s: string) {
    forall c :: c in s ==> !IsBreak(c)
  }

  predicate NoEnds(s: string) {
    forall c :: c in s ==> !EndsAuthority(c)
  }

  predicate StartsWithSlash(path: string) {
    path == "" || path[0] == '/'
  }

  // Parts that a split URL can have.
  predicate IsPrintable(parts: UrlParts) {
    && IsScheme(parts.scheme) && Lower(parts.scheme) == parts.scheme
    && NoEnds(parts.netloc) && '?' !in parts.path && '#' !in parts.path && '#' !in parts.query
    && NoBreaks(parts.netloc) && NoBreaks(parts.path) && NoBreaks(parts.query) && NoBreaks(parts.fragment)
    && (parts.netloc != "" ==> StartsWithSlash(parts.path))
  }

  // The path as it is printed can be told from an authority.
  predicate KeepsPath(parts: UrlParts, lib: Library) {
    || parts.netloc != ""
    || (!HasAuthority(parts.path) && (parts.scheme in lib.netlocSchemes ==> StartsWithSlash(parts.path)))
  }

  lemma ExtrasRead(path: string, parts: UrlParts)
    requires '?' !in path && '#' !in path && '#' !in parts.query
    ensures var tail := path + Extras(parts);
            var head := Before(tail, '#');
            && Behind(tail, '#') == parts.fragment
            && Before(head, '?') == path && Behind(head, '?') == parts.query
    ensures path == "" ==> StartsTail(Extras(parts))
  {
    hide IndexOf, Before, Behind;
    var head := path + if parts.query == "" then "" else "?" + parts.query;
    assert '#' !in head;
    IndexIs(head, '#', parts.fragment);
    IndexIs(path, '?', parts.query);
    assert parts.fragment != "" ==> path + Extras(parts) == head + ['#'] + parts.fragment;
    assert parts.fragment == "" ==> path + Extras(parts) == head;
    assert parts.query != "" ==> head == path + ['?'] + parts.query;
    assert parts.query == "" ==> head == path;
  }

  lemma SlashesRead(scheme: string, netloc: string, tail: string)
    requires NoEnds(netloc) && StartsTail(tail)
    ensures var rest := "//" + netloc + tail;
            HasAuthority(rest) && AuthorityEnd(rest, 2) == |netloc| + 2
    ensures SplitRest(scheme, "//" + netloc + tail) == SplitTail(scheme, netloc, tail)
  {
    hide AuthorityEnd, IndexOf, Before, Behind;
    var rest := "//" + netloc + tail;
    var end := |netloc| + 2;
    assert rest[2..end] == netloc && rest[end..] == tail;
    assert forall j :: 2 <= j < end ==> rest[j] == netloc[j - 2];
  }

  // The parts when the authority has been read.
  function SplitTail(scheme: string, netloc: string, tail: string): UrlParts {
    var head := Before(tail, '#');
    UrlParts(scheme, netloc, Before(head, '?'), Behind(head, '?'), Behind(tail, '#'))
  }

  lemma NoSlashesRead(scheme: string, rest: string)
    requires !HasAuthority(rest)
    ensures SplitRest(scheme, rest) == SplitTail(scheme, "", rest)
  {
    hide IndexOf, Before, Behind;
    assert rest[0..] == rest;
  }

  lemma ExtrasHaveNoSlash(path: string, parts: UrlParts)
    ensures HasAuthority(path + Extras(parts)) <==> HasAuthority(path)
  {
    var s := path + Extras(parts);
    assert |path| < |s| ==> s[|path|] == '?' || s[|path|] == '#';
    assert forall i :: 0 <= i < |path| ==> s[i] == path[i];
  }

  // A path with two slashes in front is read as an authority, and what is left as the path.
  lemma PathReadAsAuthority(parts: UrlParts) returns (netloc: string, path: string)
    requires HasAuthority(parts.path)
    ensures parts.path == "//" + netloc + path && NoEnds(netloc) && StartsTail(path)
  {
    hide AuthorityEnd;
    var end := AuthorityEnd(parts.path, 2);
    netloc, path := parts.path[2..end], parts.path[end..];
    assert parts.path[..2] == "//";
  }

  lemma PrintedRest(parts: UrlParts, lib: Library)
    requires IsPrintable(parts)
    ensures var rest := if WritesSlashes(parts, lib) then "//" + parts.netloc + (RootedPath(parts.path) + Extras(parts))
                        else parts.path + Extras(parts);
            SplitUrl(Printed(parts, lib)) == SplitRest(parts.scheme, rest)
  {
    hide SplitRest, SplitUrl, IsScheme, LooksLikeUrl, Cleaned, WritesSlashes, WithoutBreaks;
    var rest := if WritesSlashes(parts, lib) then "//" + parts.netloc + (RootedPath(parts.path) + Extras(parts))
                else parts.path + Extras(parts);
    SchemeAndRest(parts.scheme, rest);
    forall c | c in rest
      ensures !IsBreak(c)
    {
      assert c in "/?#" || c in parts.netloc || c in parts.path || c in parts.query || c in parts.fragment;
    }
    NoBreaksToDrop(rest);
  }

  lemma StartsTailWithExtras(path: string, parts: UrlParts)
    ensures StartsTail(path) ==> StartsTail(path + Extras(parts))
  {
  }

  /** Printed parts, split again: scheme, query and fragment come back whatever they are, and all parts
      do exactly if the path can be told from an authority. */
  lemma PrintedSplitsIff(parts: UrlParts, lib: Library)
    requires IsPrintable(parts)
    ensures var read := SplitUrl(Printed(parts, lib));
            && read.scheme == parts.scheme && read.query == parts.query && read.fragment == parts.fragment
            && (read == parts <==> KeepsPath(parts, lib))
  {
    hide SplitRest, SplitUrl, Extras, IsScheme, Before, Behind, NoBreaks, Printed;
    PrintedRest(parts, lib);
    if WritesSlashes(parts, lib) {
      var path := RootedPath(parts.path);
      ExtrasRead(path, parts);
      StartsTailWithExtras(path, parts);
      SlashesRead(parts.scheme, parts.netloc, path + Extras(parts));
    } else if HasAuthority(parts.path) {
      var netloc, path := PathReadAsAuthority(parts);
      StartsTailWithExtras(path, parts);
      ExtrasRead(path, parts);
      SlashesRead(parts.scheme, netloc, path + Extras(parts));
      assert parts.path + Extras(parts) == "//" + netloc + (path + Extras(parts));
    } else {
      ExtrasHaveNoSlash(parts.path, parts);
      NoSlashesRead(parts.scheme, parts.path + Extras(parts));
      ExtrasRead(parts.path, parts);
    }
  }

  // ----- The masked URL can be read -----

  lemma {:induction false} CleanedHasNoBreaks(s: string)
    ensures NoBreaks(WithoutBreaks(s))
  {
    if s != "" {
      CleanedHasNoBreaks(s[1..]);
    }
  }

  lemma PiecesAreIn(s: string, c: char)
    ensures forall d :: d in Before(s, c) || d in Behind(s, c) ==> d in s
  {
    hide IndexOf;
  }

  // A path behind an authority starts where the authority ends.
  lemma PathStartsWithSlash(tail: string)
    requires StartsTail(tail)
    ensures StartsWithSlash(Before(Before(tail, '#'), '?'))
  {
    hide IndexOf;
    var head := Before(tail, '#');
    if head != "" {
      assert head[0] == tail[0];
      assert Before(head, '?') != "" ==> Before(head, '?')[0] == head[0];
    }
  }

  lemma SplitRestShape(scheme: string, rest: string)
    requires NoBreaks(rest)
    ensures var parts := SplitRest(scheme, rest);
            && NoEnds(parts.netloc) && '?' !in parts.path && '#' !in parts.path
            && NoBreaks(parts.netloc) && NoBreaks(parts.path) && NoBreaks(parts.fragment)
            && (parts.netloc != "" ==> StartsWithSlash(parts.path))
  {
    hide AuthorityEnd, Before, Behind;
    var end := if HasAuthority(rest) then AuthorityEnd(rest, 2) else 0;
    var tail := rest[end..];
    var head := Before(tail, '#');
    PiecesAreIn(tail, '#');
    PiecesAreIn(head, '?');
    var _, _, _ := RestInOrder(scheme, rest);
    if HasAuthority(rest) {
      PathStartsWithSlash(tail);
    }
  }

  lemma LoweredScheme(word: string)
    requires IsScheme(word)
    ensures IsScheme(Lower(word)) && Lower(Lower(word)) == Lower(word)
  {
    assert forall i :: 0 <= i < |word| ==> Lower(word)[i] == ToLower(word[i]);
  }

  lemma SplitUrlShape(raw: string)
    requires LooksLikeUrl(Cleaned(raw))
    ensures var parts := SplitUrl(raw);
            && IsScheme(parts.scheme) && Lower(parts.scheme) == parts.scheme
            && NoEnds(parts.netloc) && '?' !in parts.path && '#' !in parts.path
            && NoBreaks(parts.netloc) && NoBreaks(parts.path) && NoBreaks(parts.fragment)
            && (parts.netloc != "" ==> StartsWithSlash(parts.path))
  {
    hide Cleaned, SplitRest, IsScheme, SchemeLength, HasTarget, Lower, StartsWithSlash;
    var url := Cleaned(raw);
    assert NoBreaks(url) by {
      assert Cleaned(raw) == WithoutBreaks(StripFront(raw)) by {
        CleanedIs(raw);
      }
      CleanedHasNoBreaks(StripFront(raw));
    }
    var n :| 0 <= n < |url| && url[n] == ':' && IsScheme(url[..n]) && HasTarget(url[n + 1..]);
    SchemeEndsAtFirstColon(url, n);
    NoEmptyScheme(url, n);
    LoweredScheme(url[..n]);
    SplitRestShape(Lower(url[..n]), url[n + 1..]);
    TargetIff(Lower(url[..n]), url[n + 1..]);
  }

  lemma CleanedIs(raw: string)
    ensures Cleaned(raw) == WithoutBreaks(StripFront(raw))
  {
  }

  lemma HostAddsNothing(info: string, c: char)
    ensures c !in info ==> c !in SplitHost(info).host
  {
    hide Before, Behind;
    PiecesAreIn(info, '[');
    PiecesAreIn(Behind(info, '['), ']');
    PiecesAreIn(info, ':');
  }

  lemma UserAddsNothing(netloc: string, c: char)
    ensures c !in netloc && c != ':' && c != '*' && c != '@' ==> c !in UserPart(Username(netloc))
  {
    hide LastIndexOf, Before;
    var i := LastIndexOf(netloc, '@');
    if i >= 0 {
      PiecesAreIn(netloc[..i], ':');
    }
  }

  lemma PortAddsNothing(port: nat, c: char)
    ensures c != ':' && !('0' <= c <= '9') ==> c !in PortPart(port)
  {
    hide Decimal, Number;
    DecimalReads(port);
  }

  lemma MaskedAuthorityAddsNothing(netloc: string, c: char)
    requires MaskedAuthority(netloc).Some? && c !in netloc && (EndsAuthority(c) || IsBreak(c))
    ensures c !in MaskedAuthority(netloc).value
  {
    hide HostInfo, SplitHost, Hostname, PortPart, UserPart, Username, ReadPort;
    var split := SplitHost(HostInfo(netloc));
    assert c !in HostInfo(netloc) by {
      HostInfoIsIn(netloc, c);
    }
    HostAddsNothing(HostInfo(netloc), c);
    HostnameKeeps(split.host, c);
    PortAddsNothing(ReadPort(split.port).value, c);
    UserAddsNothing(netloc, c);
  }

  lemma HostInfoIsIn(netloc: string, c: char)
    ensures c !in netloc ==> c !in HostInfo(netloc)
  {
    hide LastIndexOf;
  }

  lemma MaskedUrlIsPrintable(raw: string)
    requires IsBytes(raw) && LooksLikeUrl(Cleaned(raw)) && MaskedAuthority(SplitUrl(raw).netloc).Some?
    ensures IsPrintable(MaskedUrl(raw))
  {
    hide Cleaned, SplitUrl, LooksLikeUrl, MaskedAuthority, MaskedQuery, IsScheme, StartsWithSlash;
    var parts := SplitUrl(raw);
    SplitUrlShape(raw);
    EmptyAuthority();
    QueryIsBytes(raw);
    MaskingQueryIsIdempotent(parts.query);
    forall c | EndsAuthority(c) || IsBreak(c)
      ensures c !in MaskedAuthority(parts.netloc).value
    {
      MaskedAuthorityAddsNothing(parts.netloc, c);
    }
  }

  /** The masked URL, printed and split again, gives the masked query, and all the masked parts exactly
      if the path can be told from an authority; masking its query once more changes nothing. */
  lemma MaskedUrlParses(raw: string, lib: Library)
    requires IsBytes(raw) && LooksLikeUrl(Cleaned(raw)) && MaskedAuthority(SplitUrl(raw).netloc).Some?
    ensures var masked := MaskedUrl(raw);
            var read := SplitUrl(Printed(masked, lib));
            && IsBytes(SplitUrl(raw).query) && read.query == MaskedQuery(SplitUrl(raw).query)
            && IsBytes(read.query) && MaskedQuery(read.query) == read.query
            && read.scheme == masked.scheme && read.fragment == masked.fragment
            && (read == masked <==> KeepsPath(masked, lib))
  {
    hide Cleaned, SplitUrl, LooksLikeUrl, MaskedAuthority, MaskedQuery, IsPrintable, Printed, KeepsPath;
    MaskedUrlIsPrintable(raw);
    PrintedSplitsIff(MaskedUrl(raw), lib);
    QueryIsBytes(raw);
    MaskingQueryIsIdempotent(SplitUrl(raw).query);
  }
}

/** What comes back for a URL, written out: its parts one after the other, with the masked authority and
    the masked query in the places of the authority and the query. */
module UrlForms {
  import opened Texts
  import opened Wrappers
  import opened Masking
  import opened MaskingCases
  import opened QueryMasking
  import opened UrlAuthority
  import opened UrlSplitting
  import opened UrlPrinting
  import opened UrlBranch

  // A part with the character in front of it, or nothing.
  function Opt(mark: string, part: string): string {
    if part == "" then "" else mark + part
  }

  // A part of a URL: no character in it ends the part or is dropped when the URL is cleaned.
  predicate IsPart(s: string, ends: string) {
    IsBytes(s) && '\t' !in s && '\r' !in s && '\n' !in s && forall c :: c in ends ==> c !in s
  }

  lemma TailIs(path: string, parts: UrlParts)
    ensures path + Extras(parts) == path + Opt("?", parts.query) + Opt("#", parts.fragment)
  {
  }

  lemma PartsAreClean(word: string, netloc: string, path: string, query: string, fragment: string)
    requires IsScheme(word) && IsPart(netloc, "/?#") && IsPart(path, "?#") && IsPart(query, "#") && IsPart(fragment, "")
    ensures NoEnds(netloc) && NoBreaks(netloc) && NoBreaks(path) && NoBreaks(query) && NoBreaks(fragment)
    ensures '?' !in path && '#' !in path && '#' !in query
    ensures IsScheme(Lower(word)) && Lower(Lower(word)) == Lower(word)
  {
    LoweredScheme(word);
    assert '/' in "/?#" && '?' in "/?#" && '#' in "/?#" && '?' in "?#" && '#' in "?#" && '#' in "#";
  }

  // ----- Splitting -----

  lemma CleanRest(word: string, rest: string)
    requires IsScheme(word) && NoBreaks(rest)
    ensures SplitUrl(word + ":" + rest) == SplitRest(Lower(word), rest)
  {
    hide SplitUrl, SplitRest, IsScheme, NoBreaks, LooksLikeUrl, Cleaned, HasTarget;
    RestIsClean(rest);
    SchemeAndRest(word, rest);
  }

  lemma WithAuthority(word: string, parts: UrlParts)
    requires IsScheme(word) && parts.scheme == Lower(word)
    requires NoEnds(parts.netloc) && '?' !in parts.path && '#' !in parts.path && '#' !in parts.query
    requires NoBreaks(parts.netloc) && NoBreaks(parts.path) && NoBreaks(parts.query) && NoBreaks(parts.fragment)
    requires parts.path == "" || parts.path[0] == '/'
    ensures SplitUrl(word + ":" + ("//" + parts.netloc + (parts.path + Extras(parts)))) == parts
  {
    hide SplitUrl, SplitRest, Extras, IsScheme, Before, Behind, NoEnds;
    ExtrasRead(parts.path, parts);
    ExtrasAreClean(parts.path, parts);
    StartsTailWithExtras(parts.path, parts);
    SlashesRead(parts.scheme, parts.netloc, parts.path + Extras(parts));
    CleanRest(word, "//" + parts.netloc + (parts.path + Extras(parts)));
  }

  lemma WithoutAuthority(word: string, parts: UrlParts)
    requires IsScheme(word) && parts.scheme == Lower(word) && parts.netloc == ""
    requires '?' !in parts.path && '#' !in parts.path && '#' !in parts.query
    requires NoBreaks(parts.path) && NoBreaks(parts.query) && NoBreaks(parts.fragment) && !HasAuthority(parts.path)
    ensures SplitUrl(word + ":" + (parts.path + Extras(parts))) == parts
  {
    hide SplitUrl, SplitRest, Extras, IsScheme, Before, Behind, NoBreaks;
    ExtrasRead(parts.path, parts);
    ExtrasAreClean(parts.path, parts);
    ExtrasHaveNoSlash(parts.path, parts);
    NoSlashesRead(parts.scheme, parts.path + Extras(parts));
    CleanRest(word, parts.path + Extras(parts));
  }

  /** The parts of a URL with an authority, and of one without, are what they look like. */
  lemma UrlPartsAre(word: string, netloc: string, path: string, query: string, fragment: string)
    requires IsScheme(word) && IsPart(netloc, "/?#") && IsPart(path, "?#") && IsPart(query, "#") && IsPart(fragment, "")
    ensures path == "" || path[0] == '/' ==>
              SplitUrl(word + "://" + netloc + path + Opt("?", query) + Opt("#", fragment)) ==
              UrlParts(Lower(word), netloc, path, query, fragment)
    ensures !(|path| >= 2 && path[0] == '/' && path[1] == '/') ==>
              SplitUrl(word + ":" + path + Opt("?", query) + Opt("#", fragment)) ==
              UrlParts(Lower(word), "", path, query, fragment)
  {
    hide SplitUrl, Extras, IsScheme, IsPart, NoBreaks, NoEnds, Opt;
    PartsAreClean(word, netloc, path, query, fragment);
    if path == "" || path[0] == '/' {
      var parts := UrlParts(Lower(word), netloc, path, query, fragment);
      WithAuthority(word, parts);
      TailIs(path, parts);
      var tail := path + Opt("?", query) + Opt("#", fragment);
      assert word + ":" + ("//" + netloc + tail) == word + "://" + netloc + tail;
      Regroup(word + "://" + netloc, path, Opt("?", query), Opt("#", fragment));
    }
    if !(|path| >= 2 && path[0] == '/' && path[1] == '/') {
      var parts := UrlParts(Lower(word), "", path, query, fragment);
      assert NoBreaks("") by {
        NothingBreaks();
      }
      WithoutAuthority(word, parts);
      TailIs(path, parts);
      Regroup(word + ":", path, Opt("?", query), Opt("#", fragment));
    }
  }

  lemma NothingBreaks()
    ensures NoBreaks("")
  {
  }

  lemma Regroup(a: string, b: string, c: string, d: string)
    ensures a + (b + c + d) == a + b + c + d
  {
  }

  lemma ExtrasAreClean(path: string, parts: UrlParts)
    ensures NoBreaks(path) && NoBreaks(parts.query) && NoBreaks(parts.fragment) ==> NoBreaks(path + Extras(parts))
  {
  }

  lemma RestIsClean(rest: string)
    requires NoBreaks(rest)
    ensures WithoutBreaks(rest) == rest
  {
    forall i | 0 <= i < |rest|
      ensures !IsBreak(rest[i])
    {
      assert rest[i] in rest;
    }
    NoBreaksToDrop(rest);
  }

  // ----- Masking -----

  lemma PrintedIs(parts: UrlParts, lib: Library)
    requires parts.netloc != "" ==> parts.path == "" || parts.path[0] == '/'
    ensures Printed(parts, lib) ==
              Front(parts.scheme, parts.netloc, parts.path, lib) + Opt("?", parts.query) + Opt("#", parts.fragment)
  {
    hide Opt, Extras;
    var path := if WritesSlashes(parts, lib) then RootedPath(parts.path) else parts.path;
    var front := if WritesSlashes(parts, lib) then parts.scheme + ":" + ("//" + parts.netloc) else parts.scheme + ":";
    TailIs(path, parts);
    FrontIs(parts, lib);
    Regroup(front, path, Opt("?", parts.query), Opt("#", parts.fragment));
    PrintedFrom(parts, lib, front, path);
  }

  lemma PrintedFrom(parts: UrlParts, lib: Library, front: string, path: string)
    requires path == if WritesSlashes(parts, lib) then RootedPath(parts.path) else parts.path
    requires front ==
               if WritesSlashes(parts, lib) then parts.scheme + ":" + ("//" + parts.netloc) else parts.scheme + ":"
    ensures Printed(parts, lib) == front + (path + Extras(parts))
  {
    hide Extras, RootedPath;
  }

  lemma FrontIs(parts: UrlParts, lib: Library)
    requires parts.netloc != "" ==> parts.path == "" || parts.path[0] == '/'
    ensures Front(parts.scheme, parts.netloc, parts.path, lib) ==
              if WritesSlashes(parts, lib) then parts.scheme + ":" + ("//" + parts.netloc) + RootedPath(parts.path)
              else parts.scheme + ":" + parts.path
  {
    assert parts.scheme + ":" + "//" == parts.scheme + "://";
  }

  lemma IsUrlIffParts(raw: string, lib: Library)
    ensures var parts := SplitUrl(raw);
            IsUrl(raw, lib) <==>
            parts.scheme != "" && (parts.netloc != "" || parts.path != "") && IsReadable(parts.netloc, lib)
  {
    hide SplitUrl, Cleaned, LooksLikeUrl, IsReadable, IsUrlAt;
    BranchIff(raw);
  }

  /** A URL with an authority that can be read comes back with its scheme in small letters, the masked
      authority, its own path, the masked query and its own fragment, and nothing else. */
  lemma AuthorityUrlIsMasked(word: string, netloc: string, path: string, query: string, fragment: string, lib: Library)
    requires IsScheme(word) && IsPart(netloc, "/?#") && IsPart(path, "?#") && IsPart(query, "#") && IsPart(fragment, "")
    requires path == "" || path[0] == '/'
    requires (netloc != "" || path != "") && IsReadable(netloc, lib)
    ensures var raw := word + "://" + netloc + path + Opt("?", query) + Opt("#", fragment);
            IsBytes(raw) && MaskedValue(Some(raw), lib) ==
              Some(Front(Lower(word), MaskedAuthority(netloc).value, path, lib) + Opt("?", MaskedQuery(query))
                   + Opt("#", fragment))
  {
    hide SplitUrl, IsUrl, IsScheme, MaskedAuthority, IsAccepted, MaskedQuery, Printed, LooksLikeUrl, Cleaned, IsUrlAt;
    var raw := word + "://" + netloc + path + Opt("?", query) + Opt("#", fragment);
    UrlIsBytes(word, "://", netloc, path, query, fragment);
    UrlPartsAre(word, netloc, path, query, fragment);
    IsUrlIffParts(raw, lib);
    SchemeIsNotEmpty(word);
    PrintedIs(MaskedUrl(raw), lib);
  }

  lemma BytesAppend(a: string, b: string)
    ensures IsBytes(a) && IsBytes(b) ==> IsBytes(a + b)
  {
  }

  lemma UrlIsBytes(word: string, mark: string, netloc: string, path: string, query: string, fragment: string)
    requires IsScheme(word) && (mark == ":" || mark == "://")
    requires IsBytes(netloc) && IsBytes(path) && IsBytes(query) && IsBytes(fragment)
    ensures IsBytes(word + mark + netloc + path + Opt("?", query) + Opt("#", fragment))
  {
    hide IsScheme;
    SchemeIsNotEmpty(word);
    BytesAppend(word, mark);
    hide IsBytes;
    assert IsBytes(Opt("?", query)) && IsBytes(Opt("#", fragment)) by {
      OptIsBytes("?", query);
      OptIsBytes("#", fragment);
    }
    BytesAppend(word + mark, netloc);
    BytesAppend(word + mark + netloc, path);
    BytesAppend(word + mark + netloc + path, Opt("?", query));
    BytesAppend(word + mark + netloc + path + Opt("?", query), Opt("#", fragment));
  }

  lemma OptIsBytes(mark: string, part: string)
    ensures IsBytes(mark) && IsBytes(part) ==> IsBytes(Opt(mark, part))
  {
  }

  /** A URL with a path and no authority comes back the same way. */
  lemma PathUrlIsMasked(word: string, path: string, query: string, fragment: string, lib: Library)
    requires IsScheme(word) && IsPart(path, "?#") && IsPart(query, "#") && IsPart(fragment, "")
    requires path != "" && !(|path| >= 2 && path[0] == '/' && path[1] == '/')
    ensures var raw := word + ":" + path + Opt("?", query) + Opt("#", fragment);
            IsBytes(raw) && MaskedValue(Some(raw), lib) ==
              Some(Front(Lower(word), "", path, lib) + Opt("?", MaskedQuery(query)) + Opt("#", fragment))
  {
    hide SplitUrl, IsUrl, IsScheme, MaskedAuthority, MaskedQuery, Printed, LooksLikeUrl, Cleaned, IsUrlAt;
    var raw := word + ":" + path + Opt("?", query) + Opt("#", fragment);
    UrlIsBytes(word, ":", "", path, query, fragment);
    assert word + ":" + "" + path == word + ":" + path;
    UrlPartsAre(word, "", path, query, fragment);
    EmptyAuthority();
    IsUrlIffParts(raw, lib);
    SchemeIsNotEmpty(word);
    PrintedIs(MaskedUrl(raw), lib);
  }

  /** What comes back for any URL, split again, has the scheme and the fragment of what came in, and its masked
      query; it has the path too, and the masked authority, if and only if an authority is written or the
      path can be told from one. */
  lemma MaskedUrlKeepsParts(raw: string, lib: Library, masked: string)
    requires IsBytes(raw) && raw != "" && IsUrl(raw, lib) && MaskedValue(Some(raw), lib) == Some(masked)
    ensures var before, after := SplitUrl(raw), SplitUrl(masked);
            && after.scheme == before.scheme && after.fragment == before.fragment
            && IsBytes(before.query) && after.query == MaskedQuery(before.query)
            && MaskedAuthority(before.netloc).Some?
            && (after.path == before.path && Some(after.netloc) == MaskedAuthority(before.netloc)
                <==>
                || MaskedAuthority(before.netloc) != Some("")
                || (!(|before.path| >= 2 && before.path[..2] == "//")
                    && (before.scheme in lib.netlocSchemes ==> before.path == "" || before.path[0] == '/')))
  {
    hide Cleaned, SplitUrl, LooksLikeUrl, MaskedAuthority, MaskedQuery, IsAccepted, Printed;
    MaskedUrlParses(raw, lib);
    var path := SplitUrl(raw).path;
    assert HasAuthority(path) <==> |path| >= 2 && path[..2] == "//";
  }

  // ----- Which branch -----

  /** An authority without brackets is accepted, one with brackets of one kind only is refused, and one with
      both if the library refuses what stands between the first "[" and the next "]". */
  lemma AcceptedAs(before: string, host: string, behind: string, lib: Library)
    requires '[' !in before && ']' !in host
    ensures '[' !in host && ']' !in before ==> IsAccepted(before + host, lib)
    ensures ']' !in before && ']' !in behind ==> !IsAccepted(before + "[" + host + behind, lib)
    ensures ('[' !in host && '[' !in behind) ==> !IsAccepted(before + host + "]" + behind, lib)
    ensures IsAccepted(before + "[" + host + "]" + behind, lib) <==> lib.isHost(host)
  {
    hide IndexOf, Before, Behind;
    var netloc := before + "[" + host + "]" + behind;
    assert netloc == before + ['['] + (host + "]" + behind) && host + "]" + behind == host + [']'] + behind;
    IndexIs(before, '[', host + "]" + behind);
    IndexIs(host, ']', behind);
    assert netloc[|before|] == '[' && netloc[|before| + 1 + |host|] == ']';
    assert (before + "[" + host + behind)[|before|] == '[';
    assert (before + host + "]" + behind)[|before| + |host|] == ']';
  }

  /** Nothing comes back for nothing, and an empty text for an empty text.  A text that has not the form of a URL,
      or whose authority is refused or has no readable port, comes back as a masked text. */
  lemma OtherTextsAreMessages(raw: string, lib: Library)
    requires IsBytes(raw)
    ensures MaskedValue(None, lib) == None && MaskedValue(Some(""), lib) == Some("")
    ensures raw != "" && ((forall n: nat :: !IsUrlAt(Cleaned(raw), n)) || !IsAccepted(SplitUrl(raw).netloc, lib)
                          || MaskedAuthority(SplitUrl(raw).netloc).None?) ==>
              MaskedValue(Some(raw), lib) == Some(MaskedText(raw))
  {
    hide SplitUrl, Cleaned, LooksLikeUrl, IsAccepted, MaskedAuthority, MaskedText, IsUrlAt;
    BranchIff(raw);
  }

  // ----- Texts without a value -----

  /** A text that is no URL and in which no keyword is followed by "=", ":" or a space comes back as three
      asterisks. */
  lemma MessageWithoutValueIsHidden(value: string, lib: Library)
    requires IsBytes(value) && value != "" && !IsUrl(value, lib)
    ensures MaskedValue(Some(value), lib) == Some("***") <==>
            forall word, i :: 0 <= i && word in WORDS && At(Lower(value), word, i) && i + |word| < |value| ==>
              value[i + |word|] !in "=: "
  {
    hide IsUrl, MaskedText;
    TextIsHiddenIff(value);
  }
}

/** `urlsplit` as Python 3.11 has it (after RFC 3986): the parts of a URL, which texts have them, and
    where in the text they stand. */
module UrlSplitting {
  import opened Texts
  import opened Masking
  import opened QueryMasking
  import opened UrlAuthority

  // ----- Splitting a URL -----

  // Characters stripped in front: the control characters and the space.
  function StripFront(s: string): string {
    if s != "" && s[0] <= ' ' then StripFront(s[1..]) else s
  }

  predicate IsBreak(c: char) {
    c == '\t' || c == '\n' || c == '\r'
  }

  function WithoutBreaks(s: string): string {
    if s == "" then ""
    else if IsBreak(s[0]) then WithoutBreaks(s[1..])
    else [s[0]] + WithoutBreaks(s[1..])
  }

  function Cleaned(raw: string): string {
    WithoutBreaks(StripFront(raw))
  }

  predicate IsLetter(c: char) {
    IsUpper(c) || IsLower(c)
  }

  predicate IsSchemeChar(c: char) {
    IsLetter(c) || '0' <= c <= '9' || c == '+' || c == '-' || c == '.'
  }

  predicate IsScheme(word: string) {
    word != "" && IsLetter(word[0]) && forall i :: 0 <= i < |word| ==> IsSchemeChar(word[i])
  }

  // The length of the scheme, or 0 if there is none.
  function SchemeLength(url: string): (n: nat)
    ensures n < |url| || n == 0
  {
    var i := IndexOf(url, ':');
    if i < |url| && IsScheme(url[..i]) then i else 0
  }

  predicate EndsAuthority(c: char) {
    c == '/' || c == '?' || c == '#'
  }

  function AuthorityEnd(rest: string, i: nat): (m: nat)
    requires i <= |rest|
    ensures i <= m <= |rest| && (m < |rest| ==> EndsAuthority(rest[m]))
    ensures forall j :: i <= j < m ==> !EndsAuthority(rest[j])
    decreases |rest| - i
  {
    if i == |rest| || EndsAuthority(rest[i]) then i else AuthorityEnd(rest, i + 1)
  }

  predicate HasAuthority(rest: string) {
    |rest| >= 2 && rest[0] == '/' && rest[1] == '/'
  }

  datatype UrlParts = UrlParts(scheme: string, netloc: string, path: string, query: string, fragment: string)

  // What stands behind the scheme.
  function SplitRest(scheme: string, rest: string): UrlParts {
    var start := if HasAuthority(rest) then 2 else 0;
    var end := if HasAuthority(rest) then AuthorityEnd(rest, 2) else 0;
    var tail := rest[end..];
    var head := Before(tail, '#');
    UrlParts(scheme, rest[start..end], Before(head, '?'), Behind(head, '?'), Behind(tail, '#'))
  }

  function SplitUrl(raw: string): UrlParts {
    var url := Cleaned(raw);
    var n := SchemeLength(url);
    SplitRest(Lower(url[..n]), if n == 0 then url else url[n + 1..])
  }

  // ----- Which texts are URLs -----

  // There is a host or a path in front of the query.
  predicate HasTarget(rest: string) {
    var target := if HasAuthority(rest) then rest[2..] else rest;
    target != "" && target[0] != '?' && target[0] != '#'
  }

  predicate LooksLikeUrl(url: string) {
    exists n :: 0 <= n < |url| && url[n] == ':' && IsScheme(url[..n]) && HasTarget(url[n + 1..])
  }

  // A colon is no scheme character, so only the first one can end a scheme.
  lemma SchemeEndsAtFirstColon(url: string, n: nat)
    requires n < |url| && url[n] == ':' && IsScheme(url[..n])
    ensures IndexOf(url, ':') == n == SchemeLength(url)
  {
    hide IndexOf;
    forall j | 0 <= j < n
      ensures url[j] != ':'
    {
      assert IsSchemeChar(url[..n][j]);
    }
  }

  lemma TargetIff(scheme: string, rest: string)
    ensures var parts := SplitRest(scheme, rest);
            parts.scheme == scheme && (parts.netloc != "" || parts.path != "" <==> HasTarget(rest))
  {
  }

  lemma SchemeIff(url: string)
    ensures SchemeLength(url) > 0 <==> exists n :: 0 <= n < |url| && url[n] == ':' && IsScheme(url[..n])
  {
    hide IndexOf, IsScheme;
    if n :| 0 <= n < |url| && url[n] == ':' && IsScheme(url[..n]) {
      SchemeEndsAtFirstColon(url, n);
      NoEmptyScheme(url, n);
    }
  }

  lemma NoEmptyScheme(url: string, n: nat)
    requires n < |url| && IsScheme(url[..n])
    ensures n > 0
  {
  }

  // The test in its own characters: a letter, then letters, digits, "+", "-" or "." up to a colon at n, and
  // behind it, or behind two slashes that follow it, something that is no query and no fragment.
  predicate IsUrlAt(url: string, n: nat) {
    && 0 < n && n + 1 < |url| && url[n] == ':' && ('a' <= url[0] <= 'z' || 'A' <= url[0] <= 'Z')
    && (forall k :: 0 <= k < n ==>
          'a' <= url[k] <= 'z' || 'A' <= url[k] <= 'Z' || '0' <= url[k] <= '9' || url[k] in "+-.")
    && url[n + 1] !in "?#"
    && (n + 2 < |url| && url[n + 1] == '/' && url[n + 2] == '/' ==> n + 3 < |url| && url[n + 3] !in "?#")
  }

  lemma LooksLikeUrlIff(url: string)
    ensures LooksLikeUrl(url) <==> exists n: nat :: IsUrlAt(url, n)
  {
    hide IsScheme, HasTarget;
    if n :| 0 <= n < |url| && url[n] == ':' && IsScheme(url[..n]) && HasTarget(url[n + 1..]) {
      SchemeIs(url, n);
      TargetIs(url, n + 1);
      assert IsUrlAt(url, n);
    }
    if n: nat :| IsUrlAt(url, n) {
      SchemeIs(url, n);
      TargetIs(url, n + 1);
    }
  }

  lemma SchemeIs(url: string, n: nat)
    requires n < |url|
    ensures IsScheme(url[..n]) <==>
            && 0 < n && ('a' <= url[0] <= 'z' || 'A' <= url[0] <= 'Z')
            && (forall k :: 0 <= k < n ==>
                  'a' <= url[k] <= 'z' || 'A' <= url[k] <= 'Z' || '0' <= url[k] <= '9' || url[k] in "+-.")
  {
    var word := url[..n];
    assert forall k :: 0 <= k < n ==> word[k] == url[k];
    assert forall c: char :: c in "+-." <==> c == '+' || c == '-' || c == '.';
  }

  lemma TargetIs(url: string, i: nat)
    requires i <= |url|
    ensures HasTarget(url[i..]) <==>
            && i < |url| && url[i] !in "?#"
            && (i + 1 < |url| && url[i] == '/' && url[i + 1] == '/' ==> i + 2 < |url| && url[i + 2] !in "?#")
  {
    assert forall c: char :: c in "?#" <==> c == '?' || c == '#';
  }

  /** A scheme and a host or path are found if and only if the cleaned text passes that test. */
  lemma BranchIff(raw: string)
    ensures var parts := SplitUrl(raw);
            && (parts.scheme != "" && (parts.netloc != "" || parts.path != "") <==> LooksLikeUrl(Cleaned(raw)))
            && (LooksLikeUrl(Cleaned(raw)) <==> exists n: nat :: IsUrlAt(Cleaned(raw), n))
  {
    hide Cleaned, IndexOf, SplitRest, HasTarget, IsScheme, SchemeLength, IsUrlAt;
    var url := Cleaned(raw);
    var n := SchemeLength(url);
    SchemeIff(url);
    LooksLikeUrlIff(url);
    TargetIff(Lower(url[..n]), if n == 0 then url else url[n + 1..]);
    forall m: nat | m < |url| && url[m] == ':' && IsScheme(url[..m])
      ensures m == n
    {
      SchemeEndsAtFirstColon(url, m);
    }
  }

  // ----- Texts that begin with a word and a colon -----

  lemma {:induction false} NoBreaksToDrop(s: string)
    requires forall i :: 0 <= i < |s| ==> !IsBreak(s[i])
    ensures WithoutBreaks(s) == s
  {
    if s != "" {
      NoBreaksToDrop(s[1..]);
    }
  }

  lemma {:induction false} WithoutBreaksParts(a: string, b: string)
    ensures WithoutBreaks(a + b) == WithoutBreaks(a) + WithoutBreaks(b)
  {
    if a == "" {
      assert a + b == b;
    } else {
      assert (a + b)[1..] == a[1..] + b;
      WithoutBreaksParts(a[1..], b);
    }
  }

  /** Cleaning drops control characters and spaces in front, and tabs and line breaks everywhere; nothing else. */
  lemma CleanedAs(c: char, s: string, t: string)
    ensures c <= ' ' ==> Cleaned([c] + s) == Cleaned(s)
    ensures s != "" && s[0] > ' ' && c in "\t\r\n" ==> Cleaned(s + [c] + t) == Cleaned(s + t)
    ensures s == "" || (s[0] > ' ' && '\t' !in s && '\r' !in s && '\n' !in s) ==> Cleaned(s) == s
  {
    assert ([c] + s)[1..] == s;
    if s != "" && s[0] > ' ' && c in "\t\r\n" {
      WithoutBreaksParts(s, [c] + t);
      WithoutBreaksParts([c], t);
      WithoutBreaksParts(s, t);
      assert s + [c] + t == s + ([c] + t);
      assert [c][1..] == "" && WithoutBreaks([c]) == "";
    }
    if s == "" || (s[0] > ' ' && '\t' !in s && '\r' !in s && '\n' !in s) {
      NoBreaksToDrop(s);
    }
  }

  // A text that begins with a word and a colon, cleaned.
  lemma WordAndColon(word: string, rest: string)
    requires word != "" && word[0] > ' ' && forall i :: 0 <= i < |word| ==> !IsBreak(word[i])
    ensures Cleaned(word + ":" + rest) == word + ":" + WithoutBreaks(rest)
  {
    var front := word + ":";
    assert forall i :: 0 <= i < |front| ==> front[i] == if i < |word| then word[i] else ':';
    NoBreaksToDrop(front);
    WithoutBreaksParts(front, rest);
    assert StripFront(front + rest) == front + rest;
  }

  lemma SchemeAndRest(word: string, rest: string)
    requires IsScheme(word)
    ensures SplitUrl(word + ":" + rest) == SplitRest(Lower(word), WithoutBreaks(rest))
    ensures LooksLikeUrl(Cleaned(word + ":" + rest)) <==> HasTarget(WithoutBreaks(rest))
  {
    hide SplitRest, WithoutBreaks, Cleaned, HasTarget, IsScheme, SchemeLength, IndexOf;
    SchemeIsClean(word);
    WordAndColon(word, rest);
    var url := word + ":" + WithoutBreaks(rest);
    assert url[..|word|] == word && url[|word|] == ':' && url[|word| + 1..] == WithoutBreaks(rest);
    SchemeEndsAtFirstColon(url, |word|);
    forall n: nat | n < |url| && url[n] == ':' && IsScheme(url[..n])
      ensures n == |word|
    {
      SchemeEndsAtFirstColon(url, n);
    }
  }

  lemma SchemeIsNotEmpty(word: string)
    requires IsScheme(word)
    ensures word != "" && IsBytes(word)
  {
    assert forall i :: 0 <= i < |word| ==> IsSchemeChar(word[i]);
  }

  lemma SchemeIsClean(word: string)
    requires IsScheme(word)
    ensures word != "" && word[0] > ' ' && forall i :: 0 <= i < |word| ==> !IsBreak(word[i])
  {
    assert forall i :: 0 <= i < |word| ==> IsSchemeChar(word[i]);
  }

  lemma NotAScheme(word: string, rest: string)
    requires word != "" && word[0] > ' ' && ':' !in word && !IsScheme(word)
    requires forall i :: 0 <= i < |word| ==> !IsBreak(word[i])
    ensures !LooksLikeUrl(Cleaned(word + ":" + rest))
  {
    hide WithoutBreaks, Cleaned, HasTarget, IsScheme, IndexOf;
    WordAndColon(word, rest);
    var url := word + ":" + WithoutBreaks(rest);
    assert url[..|word|] == word;
    IndexIs(word, ':', WithoutBreaks(rest));
    SchemeIff(url);
  }

  // ----- Texts with an authority -----

  predicate IsLogin(netloc: string) {
    netloc != "" && forall i :: 0 <= i < |netloc| ==> !EndsAuthority(netloc[i]) && !IsBreak(netloc[i])
  }

  predicate StartsTail(tail: string) {
    tail == "" || EndsAuthority(tail[0])
  }

  lemma AuthorityIsRead(scheme: string, netloc: string, tail: string)
    requires IsLogin(netloc) && StartsTail(tail)
    ensures var rest := "//" + netloc + tail;
            && HasTarget(rest) && SplitRest(scheme, rest).netloc == netloc
            && HasAuthority(rest) && rest[AuthorityEnd(rest, 2)..] == tail
  {
    hide AuthorityEnd, IndexOf;
    var rest := "//" + netloc + tail;
    var end := |netloc| + 2;
    assert rest[2..end] == netloc && rest[end..] == tail;
    assert forall j :: 2 <= j < end ==> rest[j] == netloc[j - 2];
    assert rest[2..][0] == netloc[0];
    assert AuthorityEnd(rest, 2) == end;
  }

  // The other parts do not depend on the authority.
  lemma TailIsRead(scheme: string, left: string, right: string, tail: string)
    requires IsLogin(left) && IsLogin(right) && StartsTail(tail)
    ensures SplitRest(scheme, "//" + left + tail).(netloc := right) == SplitRest(scheme, "//" + right + tail)
  {
    hide AuthorityEnd, IndexOf, IsLogin, StartsTail, HasTarget;
    AuthorityIsRead(scheme, left, tail);
    AuthorityIsRead(scheme, right, tail);
  }

  lemma LoginUrl(scheme: string, netloc: string, tail: string)
    requires IsScheme(scheme) && IsLogin(netloc) && StartsTail(tail)
    ensures StartsTail(WithoutBreaks(tail))
    ensures var raw := scheme + "://" + netloc + tail;
            && SplitUrl(raw) == SplitRest(Lower(scheme), "//" + netloc + WithoutBreaks(tail))
            && LooksLikeUrl(Cleaned(raw))
  {
    hide SplitRest, SplitUrl, LooksLikeUrl, Cleaned, HasTarget, IsScheme;
    var login := "//" + netloc;
    assert login[0] == '/' && login[1] == '/' && forall i :: 2 <= i < |login| ==> login[i] == netloc[i - 2];
    NoBreaksToDrop(login);
    WithoutBreaksParts(login, tail);
    SchemeAndRest(scheme, login + tail);
    assert scheme + ":" + (login + tail) == scheme + "://" + netloc + tail;
    AuthorityIsRead(Lower(scheme), netloc, WithoutBreaks(tail));
  }

  // ----- Where the parts come from -----

  lemma CutAtFirst(s: string, c: char) returns (mark: string)
    ensures s == Before(s, c) + mark + Behind(s, c) && c !in Before(s, c)
    ensures mark == [c] || (mark == "" && Behind(s, c) == "")
  {
    hide IndexOf;
    var i := IndexOf(s, c);
    mark := if i < |s| then [c] else "";
    assert s[..i] + s[i..] == s;
    assert i < |s| ==> s[i..] == [c] + s[i + 1..];
  }

  // What is between the parts of a URL, where the part behind is empty if nothing is.
  predicate IsMark(mark: string, c: char, part: string) {
    mark == [c] || (mark == "" && part == "")
  }

  lemma PiecesAddNothing(s: string, c: char, d: char)
    requires d !in s
    ensures d !in Before(s, c) && d !in Behind(s, c)
  {
    hide IndexOf;
  }

  lemma TailInOrder(tail: string) returns (mark: string, hash: string)
    ensures var head := Before(tail, '#');
            var (path, query, fragment) := (Before(head, '?'), Behind(head, '?'), Behind(tail, '#'));
            && tail == path + mark + query + hash + fragment
            && IsMark(mark, '?', query) && IsMark(hash, '#', fragment)
            && '?' !in path && '#' !in path && '#' !in query
  {
    hide Before, Behind;
    var head := Before(tail, '#');
    hash := CutAtFirst(tail, '#');
    mark := CutAtFirst(head, '?');
    PiecesAddNothing(head, '?', '#');
  }

  lemma RestInOrder(scheme: string, rest: string) returns (slashes: string, mark: string, hash: string)
    ensures var parts := SplitRest(scheme, rest);
            && parts.scheme == scheme
            && rest == slashes + parts.netloc + (parts.path + mark + parts.query + hash + parts.fragment)
            && (slashes == "//" || (slashes == "" && parts.netloc == ""))
            && IsMark(mark, '?', parts.query) && IsMark(hash, '#', parts.fragment)
            && '?' !in parts.path && '#' !in parts.path && '#' !in parts.query
  {
    hide AuthorityEnd, Before, Behind, IsMark;
    var start := if HasAuthority(rest) then 2 else 0;
    var end := if HasAuthority(rest) then AuthorityEnd(rest, 2) else 0;
    slashes := rest[..start];
    mark, hash := TailInOrder(rest[end..]);
    assert rest == rest[..start] + rest[start..end] + rest[end..];
  }

  /** The parts stand in the cleaned text, in order, with nothing between them but the characters that
      separate them: the URL branch returns path and fragment as they were written. */
  lemma PartsInOrder(raw: string) returns (front: string, slashes: string, mark: string, hash: string)
    ensures var parts := SplitUrl(raw);
            && Cleaned(raw) ==
                 front + (slashes + parts.netloc + (parts.path + mark + parts.query + hash + parts.fragment))
            && Lower(front) == (if parts.scheme == "" then "" else parts.scheme + ":")
            && (slashes == "//" || (slashes == "" && parts.netloc == ""))
            && IsMark(mark, '?', parts.query) && IsMark(hash, '#', parts.fragment)
            && '?' !in parts.path && '#' !in parts.path && '#' !in parts.query
  {
    hide Cleaned, SchemeLength, SplitRest, IsMark;
    var url := Cleaned(raw);
    var n := SchemeLength(url);
    var rest := if n == 0 then url else url[n + 1..];
    slashes, mark, hash := RestInOrder(Lower(url[..n]), rest);
    front := SchemeInFront(url);
  }

  lemma SchemeInFront(url: string) returns (front: string)
    ensures var n := SchemeLength(url);
            && url == front + (if n == 0 then url else url[n + 1..])
            && Lower(front) == (if n == 0 then "" else Lower(url[..n]) + ":")
  {
    hide IndexOf, IsScheme;
    var n := SchemeLength(url);
    front := if n == 0 then "" else url[..n] + ":";
    assert url == url[..n] + url[n..];
  }

  // ----- Bytes -----

  lemma {:induction false} WithoutBreaksKeepsBytes(s: string)
    requires IsBytes(s)
    ensures IsBytes(WithoutBreaks(s))
  {
    if s != "" {
      WithoutBreaksKeepsBytes(s[1..]);
    }
  }

  lemma {:induction false} StripFrontShape(s: string)
    ensures |StripFront(s)| <= |s| && StripFront(s) == s[|s| - |StripFront(s)|..]
  {
    if s != "" && s[0] <= ' ' {
      StripFrontShape(s[1..]);
    }
  }

  lemma QueryIsBytes(raw: string)
    requires IsBytes(raw)
    ensures IsBytes(SplitUrl(raw).query)
  {
    hide StripFront, WithoutBreaks, SchemeLength, Lower, SplitRest;
    StripFrontShape(raw);
    WithoutBreaksKeepsBytes(StripFront(raw));
    var url := Cleaned(raw);
    var n := SchemeLength(url);
    RestIsBytes(Lower(url[..n]), if n == 0 then url else url[n + 1..]);
  }

  lemma RestIsBytes(scheme: string, rest: string)
    requires IsBytes(rest)
    ensures IsBytes(SplitRest(scheme, rest).query)
  {
    hide IndexOf, AuthorityEnd;
  }
}

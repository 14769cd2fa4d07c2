/** `mask_sensitive_value` on text that is not a URL: twenty-four rewrites, one for each
    separator and keyword, made one after the other on the same string. */
module Masking {
  import opened Texts

  const KEYWORDS: seq<string> :=
    ["password", "passwd", "secret", "token", "apikey", "api_key", "access_key", "client_secret"]
  const SEPARATORS: string := "=: "
  const STOPS: string := " &,;"
  const MASK: string := "***"

  // Twenty-four: every separator with every keyword.
  function Passes(): nat {
    |SEPARATORS| * |KEYWORDS|
  }

  // The n-th marker in the order the loops visit them: separators outside, keywords inside.
  function Marker(n: nat): string
    requires n < Passes()
  {
    KEYWORDS[n % 8] + [SEPARATORS[n / 8]]
  }

  function Lower(s: string): (r: string)
    ensures |r| == |s|
  {
    seq(|s|, i requires 0 <= i < |s| => ToLower(s[i]))
  }

  predicate At(s: string, word: string, i: int) {
    0 <= i && i + |word| <= |s| && forall k :: 0 <= k < |word| ==> word[k] == s[i + k]
  }

  // Python's s.find(word, i): the first index from i on, or -1.
  function FindFrom(s: string, word: string, i: nat): (r: int)
    ensures r == -1 || (i <= r && r + |word| <= |s| && At(s, word, r))
    ensures forall j :: i <= j && At(s, word, j) ==> 0 <= r <= j
    decreases |s| - i
  {
    if i + |word| > |s| then -1
    else if At(s, word, i) then i
    else FindFrom(s, word, i + 1)
  }

  predicate IsStop(c: char) {
    c == ' ' || c == '&' || c == ',' || c == ';'
  }

  // The end of the value that starts at i: the next stop character, or the end of the text.
  function StopFrom(s: string, i: nat): (r: nat)
    requires i <= |s|
    ensures i <= r <= |s| && (r < |s| ==> IsStop(s[r]))
    ensures forall j :: i <= j < r ==> !IsStop(s[j])
    decreases |s| - i
  {
    if i == |s| || IsStop(s[i]) then i else StopFrom(s, i + 1)
  }

  function Hide(s: string, start: nat, end: nat): string
    requires start <= end <= |s|
  {
    s[..start] + MASK + s[end..]
  }

  function Rewrite(s: string, marker: string): string {
    var index := FindFrom(Lower(s), marker, 0);
    if index < 0 then s
    else Hide(s, index + |marker|, StopFrom(s, index + |marker|))
  }

  function After(s: string, n: nat): string
    requires n <= Passes()
  {
    if n == 0 then s else Rewrite(After(s, n - 1), Marker(n - 1))
  }

  predicate Occurs(s: string, word: string) {
    FindFrom(Lower(s), word, 0) >= 0
  }

  // One of the first n markers occurs.
  predicate HasMarker(s: string, n: nat)
    requires n <= Passes()
  {
    n > 0 && (Occurs(s, Marker(n - 1)) || HasMarker(s, n - 1))
  }

  function MaskedText(s: string): string {
    if HasMarker(s, Passes()) then After(s, Passes()) else MASK
  }

  predicate ContainsKeyword(key: string) {
    exists k :: 0 <= k < |KEYWORDS| && Occurs(key, KEYWORDS[k])
  }

  /** A key is sensitive if and only if some keyword is part of it, in capital or small letters. */
  lemma SensitiveIff(key: string)
    ensures ContainsKeyword(key) <==> exists k, i :: 0 <= k < |KEYWORDS| && At(Lower(key), KEYWORDS[k], i)
  {
    if ContainsKeyword(key) {
      var k :| 0 <= k < |KEYWORDS| && Occurs(key, KEYWORDS[k]);
      assert At(Lower(key), KEYWORDS[k], FindFrom(Lower(key), KEYWORDS[k], 0));
    }
    forall k, i | 0 <= k < |KEYWORDS| && At(Lower(key), KEYWORDS[k], i)
      ensures Occurs(key, KEYWORDS[k])
    {
      assert FindFrom(Lower(key), KEYWORDS[k], 0) <= i;
    }
  }

  // A marker cannot occur without its keyword.
  lemma {:induction false} MarkerNeedsKeyword(s: string, n: nat)
    requires n <= Passes() && HasMarker(s, n)
    ensures ContainsKeyword(s)
  {
    if Occurs(s, Marker(n - 1)) {
      var i, keyword := FindFrom(Lower(s), Marker(n - 1), 0), KEYWORDS[(n - 1) % 8];
      assert keyword == Marker(n - 1)[..|keyword|];
      assert At(Lower(s), keyword, i);
    } else {
      MarkerNeedsKeyword(s, n - 1);
    }
  }

  // The end of the value that starts at `start`: the nearest of the four stop characters.
  method EndOfValue(masked: string, start: nat) returns (end: nat)
    requires start <= |masked|
    ensures end == StopFrom(masked, start)
  {
    end := |masked|;
    for k := 0 to |STOPS|
      invariant start <= end <= |masked|
      invariant end < |masked| ==> IsStop(masked[end])
      invariant forall j :: start <= j < end ==> masked[j] !in STOPS[..k]
    {
      var next := FindFrom(masked, [STOPS[k]], start);
      forall j | start <= j < |masked| && masked[j] == STOPS[k]
        ensures 0 <= next <= j
      {
        assert At(masked, [STOPS[k]], j);
      }
      if next != -1 && next < end {
        assert masked[next] == [STOPS[k]][0];
        end := next;
      }
    }
    assert STOPS[..4] == STOPS;
    forall j | start <= j < end
      ensures !IsStop(masked[j])
    {
      assert ' ' == STOPS[0] && '&' == STOPS[1] && ',' == STOPS[2] && ';' == STOPS[3];
    }
  }

  // What the nested loops have achieved after n of the twenty-four passes.
  predicate Progress(value: string, n: nat, masked: string, replaced: bool)
    requires n <= Passes()
  {
    && masked == After(value, n)
    && replaced == HasMarker(value, n)
    && (!replaced ==> masked == value)
  }

  lemma ProgressStep(value: string, a: nat, b: nat, masked: string, replaced: bool)
    requires a < |SEPARATORS| && b < |KEYWORDS| && Progress(value, 8 * a + b, masked, replaced)
    ensures var marker := KEYWORDS[b] + [SEPARATORS[a]];
            Progress(value, 8 * a + b + 1, Rewrite(masked, marker), replaced || Occurs(masked, marker))
  {
    LoopMarker(a, b);
  }

  lemma LoopMarker(a: nat, b: nat)
    requires a < |SEPARATORS| && b < |KEYWORDS|
    ensures Marker(8 * a + b) == KEYWORDS[b] + [SEPARATORS[a]]
  {
  }

  // One pass of the inner loop: hide the value after the first occurrence of the marker.
  method HideValue(masked: string, marker: string) returns (r: string, replaced: bool)
    ensures r == Rewrite(masked, marker) && replaced == Occurs(masked, marker)
  {
    var index := FindFrom(Lower(masked), marker, 0);
    if index < 0 {
      return masked, false;
    }
    var start := index + |marker|;
    var end := EndOfValue(masked, start);
    return masked[..start] + MASK + masked[end..], true;
  }

  method MaskText(value: string) returns (r: string)
    ensures r == MaskedText(value)
  {
    if !ContainsKeyword(value) {
      if HasMarker(value, Passes()) {
        MarkerNeedsKeyword(value, Passes());
      }
      return MASK;
    }
    var masked := value;
    var replacedSpecificValue := false;
    for a := 0 to |SEPARATORS|
      invariant Progress(value, 8 * a, masked, replacedSpecificValue)
    {
      for b := 0 to |KEYWORDS|
        invariant Progress(value, 8 * a + b, masked, replacedSpecificValue)
      {
        ProgressStep(value, a, b, masked, replacedSpecificValue);
        var replaced;
        masked, replaced := HideValue(masked, KEYWORDS[b] + [SEPARATORS[a]]);
        replacedSpecificValue := replacedSpecificValue || replaced;
      }
    }
    assert Progress(value, Passes(), masked, replacedSpecificValue);
    return if replacedSpecificValue then masked else MASK;
  }
}

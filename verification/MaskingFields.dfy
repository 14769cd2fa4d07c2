/** The masker seen field by field.  A text is a list of fields separated by stop characters;
    each rewrite of the flat string touches one field, and rewriting the fields or rewriting
    the flat string is the same thing. */
module MaskingFields {
  import opened Texts
  import opened Masking

  datatype Text =
    | Only(field: string)
    | Then(field: string, stop: char, rest: Text)

  function Flat(t: Text): (s: string)
    ensures |t.field| <= |s|
    ensures t.Then? ==> |s| == |t.field| + 1 + |Flat(t.rest)|
  {
    match t
    case Only(field) => field
    case Then(field, stop, rest) => field + [stop] + Flat(rest)
  }

  predicate NoStops(s: string) {
    forall i :: 0 <= i < |s| ==> !IsStop(s[i])
  }

  predicate WellFormed(t: Text) {
    NoStops(t.field) && (t.Then? ==> IsStop(t.stop) && WellFormed(t.rest))
  }

  function Split(s: string): (t: Text)
    ensures WellFormed(t) && Flat(t) == s
  {
    if s == "" then Only("")
    else if IsStop(s[0]) then Then("", s[0], Split(s[1..]))
    else
      match Split(s[1..])
      case Only(field) => Only([s[0]] + field)
      case Then(field, stop, rest) => Then([s[0]] + field, stop, rest)
  }

  /** A text has only one decomposition into fields and stop characters. */
  lemma {:induction false} SplitIsUnique(t: Text)
    requires WellFormed(t)
    ensures Split(Flat(t)) == t
    decreases |Flat(t)|
  {
    if t.field != "" {
      var tail := t.(field := t.field[1..]);
      assert t.field == [t.field[0]] + tail.field;
      assert Flat(t)[1..] == Flat(tail);
      SplitIsUnique(tail);
    } else if t.Then? {
      assert Flat(t)[1..] == Flat(t.rest);
      SplitIsUnique(t.rest);
    }
  }

  // ----- Markers -----

  predicate IsWordChar(c: char) {
    'a' <= c <= 'z' || c == '_'
  }

  predicate IsWord(s: string) {
    |s| > 0 && forall i :: 0 <= i < |s| ==> IsWordChar(s[i])
  }

  function Keyword(q: nat): string
    requires q < Passes()
  {
    KEYWORDS[q % |KEYWORDS|]
  }

  function Separator(q: nat): char
    requires q < Passes()
  {
    SEPARATORS[q / |KEYWORDS|]
  }

  lemma KeywordsAreWords(k: nat)
    requires k < |KEYWORDS|
    ensures IsWord(KEYWORDS[k])
  {
    assert IsWord("password") && IsWord("passwd") && IsWord("secret") && IsWord("token");
    assert IsWord("apikey") && IsWord("api_key") && IsWord("access_key") && IsWord("client_secret");
  }

  lemma MarkerShape(q: nat)
    requires q < Passes()
    ensures Marker(q) == Keyword(q) + [Separator(q)]
    ensures IsWord(Keyword(q)) && Separator(q) in SEPARATORS
  {
    KeywordsAreWords(q % |KEYWORDS|);
  }

  // ----- Rewriting a field -----

  predicate EndsWith(s: string, word: string) {
    |word| <= |s| && At(Lower(s), word, |s| - |word|)
  }

  // For the separators = and : the marker and the value are in the same field.
  function CutField(t: Text, marker: string): Text {
    var index := FindFrom(Lower(t.field), marker, 0);
    if index >= 0 then t.(field := t.field[..index + |marker|] + MASK)
    else if t.Only? then t
    else t.(rest := CutField(t.rest, marker))
  }

  // For the separator space the keyword ends a field, and the value is the next field.
  function DropField(t: Text, keyword: string): Text {
    if t.Only? then t
    else if t.stop == ' ' && EndsWith(t.field, keyword) then t.(rest := t.rest.(field := MASK))
    else t.(rest := DropField(t.rest, keyword))
  }

  function Step(t: Text, q: nat): Text
    requires q < Passes()
  {
    if Separator(q) == ' ' then DropField(t, Keyword(q)) else CutField(t, Marker(q))
  }

  function Steps(t: Text, n: nat): Text
    requires n <= Passes()
  {
    if n == 0 then t else Step(Steps(t, n - 1), n - 1)
  }

  // ----- The flat rewrite is the rewrite on fields -----

  lemma LowerConcat(a: string, b: string)
    ensures Lower(a + b) == Lower(a) + Lower(b)
  {
  }

  lemma AtInside(a: string, b: string, word: string, j: nat)
    requires j + |word| <= |a|
    ensures At(a + b, word, j) == At(a, word, j)
  {
  }

  lemma AtBehind(a: string, b: string, word: string, j: nat)
    ensures At(a + b, word, |a| + j) == At(b, word, j)
  {
    assert forall k :: 0 <= k < |b| ==> (a + b)[|a| + k] == b[k];
  }

  // The first occurrence is the one with none before it.
  lemma FirstIs(s: string, word: string, i: nat)
    requires At(s, word, i) && forall j :: 0 <= j < i ==> !At(s, word, j)
    ensures FindFrom(s, word, 0) == i
  {
  }

  // Looking for a word behind a prefix in which no occurrence starts.
  lemma FindBehind(a: string, b: string, word: string)
    requires forall j :: 0 <= j < |a| ==> !At(a + b, word, j)
    ensures var inner := FindFrom(b, word, 0);
            FindFrom(a + b, word, 0) == if inner < 0 then -1 else |a| + inner
  {
    var outer, inner := FindFrom(a + b, word, 0), FindFrom(b, word, 0);
    if outer >= 0 {
      AtBehind(a, b, word, outer - |a|);
    }
    if inner >= 0 {
      AtBehind(a, b, word, inner);
    }
  }

  lemma StopBehind(a: string, b: string, i: nat)
    requires i <= |b|
    ensures StopFrom(a + b, |a| + i) == |a| + StopFrom(b, i)
    decreases |b| - i
  {
    if i < |b| {
      assert (a + b)[|a| + i] == b[i];
      if !IsStop(b[i]) {
        StopBehind(a, b, i + 1);
      }
    }
  }

  // In a field nothing stops the value before the end of the field.
  lemma StopAfterField(t: Text, i: nat)
    requires WellFormed(t) && i <= |t.field|
    ensures StopFrom(Flat(t), i) == |t.field|
    decreases |t.field| - i
  {
    if i < |t.field| {
      assert Flat(t)[i] == t.field[i];
      StopAfterField(t, i + 1);
    }
  }

  lemma HideBehind(a: string, b: string, start: nat, end: nat)
    requires start <= end <= |b|
    ensures Hide(a + b, |a| + start, |a| + end) == a + Hide(b, start, end)
  {
    assert (a + b)[..|a| + start] == a + b[..start];
    assert (a + b)[|a| + end..] == b[end..];
  }

  lemma FindBehindLower(a: string, b: string, marker: string)
    requires forall j :: 0 <= j < |a| ==> !At(Lower(a + b), marker, j)
    ensures var inner := FindFrom(Lower(b), marker, 0);
            FindFrom(Lower(a + b), marker, 0) == if inner < 0 then -1 else |a| + inner
  {
    LowerConcat(a, b);
    FindBehind(Lower(a), Lower(b), marker);
  }

  // A rewrite whose occurrence lies behind a prefix leaves the prefix alone.
  lemma RewriteBehind(a: string, b: string, marker: string)
    requires var inner := FindFrom(Lower(b), marker, 0);
             FindFrom(Lower(a + b), marker, 0) == if inner < 0 then -1 else |a| + inner
    ensures Rewrite(a + b, marker) == a + Rewrite(b, marker)
  {
    hide Hide, At, StopFrom;
    var inner := FindFrom(Lower(b), marker, 0);
    if inner >= 0 {
      var start := inner + |marker|;
      StopBehind(a, b, start);
      HideBehind(a, b, start, StopFrom(b, start));
    }
  }

  // A field is followed by nothing, or by a stop character and the other fields.
  function Tail(t: Text): string {
    if t.Only? then "" else [t.stop] + Flat(t.rest)
  }

  lemma FlatIsFieldAndTail(t: Text)
    ensures Flat(t) == t.field + Tail(t) && Lower(Flat(t)) == Lower(t.field) + Lower(Tail(t))
  {
    LowerConcat(t.field, Tail(t));
  }

  // A word that reaches over the end of a field holds a stop character.
  lemma ReachingOverFieldEnd(t: Text, word: string, j: nat)
    requires WellFormed(t) && j <= |t.field| < j + |word| && At(Lower(Flat(t)), word, j)
    ensures !NoStops(word)
  {
    var k := |t.field| - j;
    assert word[k] == ToLower(Flat(t)[|t.field|]);
    assert t.Then? && Flat(t)[|t.field|] == t.stop;
    assert IsStop(word[k]);
  }

  lemma NoOccurrenceInField(t: Text, marker: string)
    requires WellFormed(t) && |marker| > 0 && NoStops(marker)
    requires FindFrom(Lower(t.field), marker, 0) < 0
    ensures forall j :: 0 <= j <= |t.field| ==> !At(Lower(Flat(t)), marker, j)
  {
    FlatIsFieldAndTail(t);
    forall j | 0 <= j <= |t.field|
      ensures !At(Lower(Flat(t)), marker, j)
    {
      if j + |marker| <= |t.field| {
        AtInside(Lower(t.field), Lower(Tail(t)), marker, j);
      } else if At(Lower(Flat(t)), marker, j) {
        ReachingOverFieldEnd(t, marker, j);
      }
    }
  }

  lemma FirstOccurrenceInField(t: Text, marker: string)
    requires WellFormed(t) && FindFrom(Lower(t.field), marker, 0) >= 0
    ensures FindFrom(Lower(Flat(t)), marker, 0) == FindFrom(Lower(t.field), marker, 0)
  {
    var index := FindFrom(Lower(t.field), marker, 0);
    FlatIsFieldAndTail(t);
    forall j | 0 <= j <= index
      ensures At(Lower(Flat(t)), marker, j) == At(Lower(t.field), marker, j)
    {
      AtInside(Lower(t.field), Lower(Tail(t)), marker, j);
    }
    FirstIs(Lower(Flat(t)), marker, index);
  }

  // Hiding the rest of the first field, and hiding the whole second field.
  lemma HideInFirstField(t: Text, start: nat)
    requires start <= |t.field|
    ensures Hide(Flat(t), start, |t.field|) == Flat(t.(field := t.field[..start] + MASK))
  {
    FlatIsFieldAndTail(t);
    FlatIsFieldAndTail(t.(field := t.field[..start] + MASK));
    assert Flat(t)[..start] == t.field[..start];
    assert Flat(t)[|t.field|..] == Tail(t);
  }

  lemma HideSecondField(t: Text)
    requires t.Then?
    ensures Hide(Flat(t), |t.field| + 1, |t.field| + 1 + |t.rest.field|) == Flat(t.(rest := t.rest.(field := MASK)))
  {
    var prefix := t.field + [t.stop];
    assert Flat(t) == prefix + Flat(t.rest);
    HideBehind(prefix, Flat(t.rest), 0, |t.rest.field|);
    HideInFirstField(t.rest, 0);
    assert t.rest.field[..0] + MASK == MASK;
  }

  lemma {:induction false} CutIsFlatRewrite(t: Text, marker: string)
    requires WellFormed(t) && |marker| > 0 && NoStops(marker)
    ensures Flat(CutField(t, marker)) == Rewrite(Flat(t), marker)
  {
    hide Hide, At, StopFrom, FindFrom;
    var index := FindFrom(Lower(t.field), marker, 0);
    if index >= 0 {
      FirstOccurrenceInField(t, marker);
      StopAfterField(t, index + |marker|);
      HideInFirstField(t, index + |marker|);
    } else {
      NoOccurrenceInField(t, marker);
      if t.Then? {
        RewriteRest(t, marker);
        CutIsFlatRewrite(t.rest, marker);
      }
    }
  }

  // A marker that does not start in the first field is rewritten among the others.
  lemma RewriteRest(t: Text, marker: string)
    requires t.Then? && forall j :: 0 <= j <= |t.field| ==> !At(Lower(Flat(t)), marker, j)
    ensures Rewrite(Flat(t), marker) == t.field + [t.stop] + Rewrite(Flat(t.rest), marker)
  {
    var prefix := t.field + [t.stop];
    assert Flat(t) == prefix + Flat(t.rest);
    FindBehindLower(prefix, Flat(t.rest), marker);
    RewriteBehind(prefix, Flat(t.rest), marker);
  }

  // An occurrence of a keyword and a space that starts in the first field ends it.
  lemma SpaceMarkerEndsField(t: Text, keyword: string, j: nat)
    requires WellFormed(t) && |keyword| > 0 && NoStops(keyword)
    requires j <= |t.field| && At(Lower(Flat(t)), keyword + " ", j)
    ensures t.Then? && t.stop == ' ' && EndsWith(t.field, keyword) && j + |keyword| == |t.field|
  {
    var s, marker := Flat(t), keyword + " ";
    FlatIsFieldAndTail(t);
    assert marker[|keyword|] == ' ';
    assert forall k :: 0 <= k < |keyword| ==> marker[k] == keyword[k];
    assert At(Lower(s), keyword, j);
    if j + |keyword| > |t.field| {
      ReachingOverFieldEnd(t, keyword, j);
    } else {
      assert IsStop(s[j + |keyword|]);
      assert j + |keyword| == |t.field|;
      assert s[|t.field|] == t.stop;
    }
  }

  lemma SpaceMarkerAtFieldEnd(t: Text, keyword: string)
    requires WellFormed(t) && |keyword| > 0 && NoStops(keyword)
    requires t.Then? && t.stop == ' ' && EndsWith(t.field, keyword)
    ensures FindFrom(Lower(Flat(t)), keyword + " ", 0) == |t.field| - |keyword|
  {
    var s, marker, index := Lower(Flat(t)), keyword + " ", |t.field| - |keyword|;
    assert At(s, marker, index) by {
      FlatIsFieldAndTail(t);
      assert s[|t.field|] == ' ';
      assert forall k :: 0 <= k < |keyword| ==> marker[k] == keyword[k] == Lower(t.field)[index + k] == s[index + k];
    }
    forall j | 0 <= j < index
      ensures !At(s, marker, j)
    {
      if At(s, marker, j) {
        SpaceMarkerEndsField(t, keyword, j);
      }
    }
    FirstIs(s, marker, index);
  }

  lemma NoSpaceMarkerInField(t: Text, keyword: string)
    requires WellFormed(t) && |keyword| > 0 && NoStops(keyword)
    requires !(t.Then? && t.stop == ' ' && EndsWith(t.field, keyword))
    ensures forall j :: 0 <= j <= |t.field| ==> !At(Lower(Flat(t)), keyword + " ", j)
  {
    forall j | 0 <= j <= |t.field|
      ensures !At(Lower(Flat(t)), keyword + " ", j)
    {
      if At(Lower(Flat(t)), keyword + " ", j) {
        SpaceMarkerEndsField(t, keyword, j);
      }
    }
  }

  lemma {:induction false} DropIsFlatRewrite(t: Text, keyword: string)
    requires WellFormed(t) && |keyword| > 0 && NoStops(keyword)
    ensures Flat(DropField(t, keyword)) == Rewrite(Flat(t), keyword + " ")
  {
    hide Hide, At, StopFrom, FindFrom;
    if t.Then? && t.stop == ' ' && EndsWith(t.field, keyword) {
      SpaceMarkerAtFieldEnd(t, keyword);
      StopAfterField(t.rest, 0);
      assert Flat(t) == (t.field + [t.stop]) + Flat(t.rest);
      StopBehind(t.field + [t.stop], Flat(t.rest), 0);
      HideSecondField(t);
    } else {
      NoSpaceMarkerInField(t, keyword);
      if t.Then? {
        RewriteRest(t, keyword + " ");
        DropIsFlatRewrite(t.rest, keyword);
      }
    }
  }

  // ----- The stop characters stay where they are -----

  predicate SameStops(t: Text, u: Text) {
    match (t, u)
    case (Only(_), Only(_)) => true
    case (Then(_, c, r), Then(_, d, r')) => c == d && SameStops(r, r')
    case _ => false
  }

  lemma {:induction false} SameStopsReflexive(t: Text)
    ensures SameStops(t, t)
  {
    if t.Then? {
      SameStopsReflexive(t.rest);
    }
  }

  lemma {:induction false} CutKeepsShape(t: Text, marker: string)
    requires WellFormed(t)
    ensures WellFormed(CutField(t, marker)) && SameStops(t, CutField(t, marker))
  {
    SameStopsReflexive(t);
    if t.Then? {
      CutKeepsShape(t.rest, marker);
    }
  }

  lemma {:induction false} DropKeepsShape(t: Text, keyword: string)
    requires WellFormed(t)
    ensures WellFormed(DropField(t, keyword)) && SameStops(t, DropField(t, keyword))
  {
    SameStopsReflexive(t);
    if t.Then? {
      SameStopsReflexive(t.rest);
      DropKeepsShape(t.rest, keyword);
    }
  }

  lemma StepIsFlatRewrite(t: Text, q: nat)
    requires WellFormed(t) && q < Passes()
    ensures WellFormed(Step(t, q)) && Flat(Step(t, q)) == Rewrite(Flat(t), Marker(q))
  {
    MarkerShape(q);
    if Separator(q) == ' ' {
      DropKeepsShape(t, Keyword(q));
      DropIsFlatRewrite(t, Keyword(q));
    } else {
      CutKeepsShape(t, Marker(q));
      CutIsFlatRewrite(t, Marker(q));
    }
  }

  /** The flat string after n passes is the fields after n passes. */
  lemma {:induction false} StepsAreFlatRewrites(t: Text, n: nat)
    requires WellFormed(t) && n <= Passes()
    ensures WellFormed(Steps(t, n)) && Flat(Steps(t, n)) == After(Flat(t), n)
  {
    hide Rewrite, Step, Marker, WellFormed;
    if n > 0 {
      var u := Steps(t, n - 1);
      StepsAreFlatRewrites(t, n - 1);
      StepIsFlatRewrite(u, n - 1);
      assert Steps(t, n) == Step(u, n - 1);
      assert After(Flat(t), n) == Rewrite(Flat(u), Marker(n - 1));
    }
  }
}

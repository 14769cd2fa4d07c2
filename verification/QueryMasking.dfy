/** The query of a URL in `mask_sensitive_value`: the query string is parsed into pairs, the values of
    sensitive keys are replaced, and the pairs are printed again with percent-encoding
    (sections 2.1 and 2.3 of RFC 3986; "+" for a space as in section 5 of the WHATWG URL Standard).
    A character stands for one byte. */
module QueryMasking {
  import opened Texts
  import opened Wrappers
  import opened Masking

  datatype Pair = Pair(key: string, value: string)

  predicate IsBytes(s: string) {
    forall i :: 0 <= i < |s| ==> (s[i] as int) < 256
  }

  ghost predicate AreBytes(pairs: seq<Pair>) {
    forall i :: 0 <= i < |pairs| ==> IsBytes(pairs[i].key) && IsBytes(pairs[i].value)
  }

  // ----- Percent-encoding -----

  predicate IsUnreserved(c: char) {
    'a' <= c <= 'z' || 'A' <= c <= 'Z' || '0' <= c <= '9' || c == '_' || c == '.' || c == '-' || c == '~'
  }

  function HexDigit(n: nat): char
    requires n < 16
  {
    if n < 10 then ('0' as int + n) as char else ('A' as int + (n - 10)) as char
  }

  // Both cases of letter are read, only capitals are written.
  function HexValue(c: char): Option<nat> {
    if '0' <= c <= '9' then Some(c as int - '0' as int)
    else if 'A' <= c <= 'F' then Some(c as int - 'A' as int + 10)
    else if 'a' <= c <= 'f' then Some(c as int - 'a' as int + 10)
    else None
  }

  function QuoteChar(c: char): string
    requires (c as int) < 256
  {
    if IsUnreserved(c) then [c]
    else if c == ' ' then "+"
    else ['%', HexDigit(c as int / 16), HexDigit(c as int % 16)]
  }

  function QuotePlus(s: string): string
    requires IsBytes(s)
  {
    if s == "" then "" else QuoteChar(s[0]) + QuotePlus(s[1..])
  }

  function PlusToSpace(s: string): (r: string)
    ensures |r| == |s|
  {
    seq(|s|, i requires 0 <= i < |s| => if s[i] == '+' then ' ' else s[i])
  }

  predicate IsEscape(s: string) {
    |s| >= 3 && s[0] == '%' && HexValue(s[1]).Some? && HexValue(s[2]).Some?
  }

  function EscapedByte(high: nat, low: nat): char
    requires high < 16 && low < 16
  {
    (high * 16 + low) as char
  }

  lemma HexValueRange(c: char)
    ensures HexValue(c).Some? ==> HexValue(c).value < 16
  {
  }

  // An escape that is not two hexadecimal digits is left as it stands.
  function Unquote(s: string): string {
    if s == "" then ""
    else if IsEscape(s) then
      HexValueRange(s[1]); HexValueRange(s[2]);
      [EscapedByte(HexValue(s[1]).value, HexValue(s[2]).value)] + Unquote(s[3..])
    else [s[0]] + Unquote(s[1..])
  }

  function UnquotePlus(s: string): string {
    Unquote(PlusToSpace(s))
  }

  lemma {:induction false} UnquoteGivesBytes(s: string)
    requires IsBytes(s)
    ensures IsBytes(Unquote(s))
  {
    if s != "" {
      if IsEscape(s) {
        UnquoteGivesBytes(s[3..]);
      } else {
        UnquoteGivesBytes(s[1..]);
      }
    }
  }

  lemma HexDigitsRead(c: char)
    requires (c as int) < 256
    ensures HexValue(HexDigit(c as int / 16)) == Some(c as int / 16)
    ensures HexValue(HexDigit(c as int % 16)) == Some(c as int % 16)
    ensures HexDigit(c as int / 16) != '+' && HexDigit(c as int % 16) != '+'
  {
  }

  /** An escape is read with capital and with small letters. */
  lemma EscapesInEitherCase(c: char, rest: string)
    requires (c as int) < 256
    ensures var high, low := HexDigit(c as int / 16), HexDigit(c as int % 16);
            && Unquote(['%', high, low] + rest) == [c] + Unquote(rest)
            && Unquote(['%', ToLower(high), ToLower(low)] + rest) == [c] + Unquote(rest)
  {
    var high, low := HexDigit(c as int / 16), HexDigit(c as int % 16);
    HexDigitsRead(c);
    assert HexValue(ToLower(high)) == HexValue(high) && HexValue(ToLower(low)) == HexValue(low);
    assert (['%', high, low] + rest)[3..] == rest;
    assert (['%', ToLower(high), ToLower(low)] + rest)[3..] == rest;
  }

  const HEX: string := "0123456789ABCDEF"

  /** Letters, digits and "_.-~" are printed as they are, a space as a plus sign, and any other character as
      a percent sign and its code in two hexadecimal digits with capital letters. */
  lemma QuotedAs(c: char, s: string)
    requires (c as int) < 256 && IsBytes(s)
    ensures QuotePlus([c] + s) ==
              (if 'A' <= c <= 'Z' || 'a' <= c <= 'z' || '0' <= c <= '9' || c in "_.-~" then [c]
               else if c == ' ' then "+"
               else ['%', HEX[c as int / 16], HEX[c as int % 16]]) + QuotePlus(s)
  {
    assert ([c] + s)[1..] == s;
    HexDigitIs(c as int / 16);
    HexDigitIs(c as int % 16);
  }

  lemma HexDigitIs(n: nat)
    requires n < 16
    ensures HexDigit(n) == HEX[n]
  {
  }

  /** A plus sign is read as a space; a percent sign that is not followed by two hexadecimal digits, and
      any other character, as itself. */
  lemma ReadAs(c: char, s: string)
    ensures UnquotePlus("+" + s) == " " + UnquotePlus(s)
    ensures c != '+' && !IsEscape([c] + s) ==> UnquotePlus([c] + s) == [c] + UnquotePlus(s)
  {
    assert PlusToSpace("+" + s)[1..] == PlusToSpace(s);
    assert PlusToSpace([c] + s)[1..] == PlusToSpace(s);
  }

  // One quoted character in front of anything is read back as that character.
  lemma UnquoteQuotedChar(c: char, rest: string)
    requires (c as int) < 256
    ensures UnquotePlus(QuoteChar(c) + rest) == [c] + UnquotePlus(rest)
  {
    var s := PlusToSpace(QuoteChar(c) + rest);
    if IsUnreserved(c) || c == ' ' {
      assert s[1..] == PlusToSpace(rest);
    } else {
      HexDigitsRead(c);
      assert s[3..] == PlusToSpace(rest);
    }
  }

  /** Reading what was quoted gives it back. */
  lemma {:induction false} UnquoteQuoted(s: string)
    requires IsBytes(s)
    ensures UnquotePlus(QuotePlus(s)) == s
  {
    if s != "" {
      UnquoteQuoted(s[1..]);
      UnquoteQuotedChar(s[0], QuotePlus(s[1..]));
    }
  }

  // What a quoted string is made of: none of the characters that structure a query or a URL.
  predicate IsQuoted(s: string) {
    forall i :: 0 <= i < |s| ==> IsUnreserved(s[i]) || s[i] == '%' || s[i] == '+'
  }

  lemma {:induction false} QuotedAlphabet(s: string)
    requires IsBytes(s)
    ensures IsQuoted(QuotePlus(s))
  {
    if s != "" {
      QuotedAlphabet(s[1..]);
    }
  }

  // ----- Parsing -----

  function ParsePiece(piece: string): Pair {
    var i := IndexOf(piece, '=');
    if i == |piece| then Pair(UnquotePlus(piece), "")
    else Pair(UnquotePlus(piece[..i]), UnquotePlus(piece[i + 1..]))
  }

  // parse_qsl with keep_blank_values: empty pieces are skipped, a missing "=" gives an empty value.
  function ParseQuery(query: string): seq<Pair>
    decreases |query|
  {
    var i := IndexOf(query, '&');
    var first := if i == 0 then [] else [ParsePiece(query[..i])];
    if i == |query| then first else first + ParseQuery(query[i + 1..])
  }

  function EncodePair(pair: Pair): string
    requires IsBytes(pair.key) && IsBytes(pair.value)
  {
    QuotePlus(pair.key) + "=" + QuotePlus(pair.value)
  }

  function Encode(pairs: seq<Pair>): string
    requires AreBytes(pairs)
  {
    if pairs == [] then ""
    else if |pairs| == 1 then EncodePair(pairs[0])
    else EncodePair(pairs[0]) + "&" + Encode(pairs[1..])
  }

  lemma IndexBehind(a: string, b: string, c: char)
    requires b != "" && b[0] == c
    requires forall k :: 0 <= k < |a| ==> a[k] != c
    ensures IndexOf(a + b, c) == |a|
  {
    assert (a + b)[|a|] == c;
    assert forall k :: 0 <= k < |a| ==> (a + b)[k] == a[k];
  }

  // A printed pair is cut at its "=", because neither side has one.
  lemma QuotedSides(key: string, value: string)
    requires IsQuoted(key) && IsQuoted(value)
    ensures var piece := key + "=" + value;
            && IndexOf(piece, '=') == |key| && |key| < |piece|
            && piece[..|key|] == key && piece[|key| + 1..] == value
            && forall k :: 0 <= k < |piece| ==> piece[k] != '&'
  {
    var piece := key + "=" + value;
    assert piece == key + ("=" + value);
    IndexBehind(key, "=" + value, '=');
    forall k | 0 <= k < |piece|
      ensures piece[k] != '&'
    {
      assert piece[k] == if k < |key| then key[k] else if k == |key| then '=' else value[k - |key| - 1];
    }
  }

  lemma EncodedPieceParses(pair: Pair)
    requires IsBytes(pair.key) && IsBytes(pair.value)
    ensures ParsePiece(EncodePair(pair)) == pair
    ensures EncodePair(pair) != "" && forall k :: 0 <= k < |EncodePair(pair)| ==> EncodePair(pair)[k] != '&'
  {
    hide UnquotePlus, QuotePlus, IsBytes, IsQuoted, IndexOf;
    QuotedAlphabet(pair.key);
    QuotedAlphabet(pair.value);
    QuotedSides(QuotePlus(pair.key), QuotePlus(pair.value));
    UnquoteQuoted(pair.key);
    UnquoteQuoted(pair.value);
  }

  lemma ParseFirstPiece(piece: string, rest: string)
    requires piece != "" && forall i :: 0 <= i < |piece| ==> piece[i] != '&'
    ensures ParseQuery(piece) == [ParsePiece(piece)]
    ensures ParseQuery(piece + "&" + rest) == [ParsePiece(piece)] + ParseQuery(rest)
  {
    hide ParsePiece;
    assert IndexOf(piece, '&') == |piece| && piece[..|piece|] == piece;
    var query := piece + ("&" + rest);
    assert query == piece + "&" + rest;
    IndexBehind(piece, "&" + rest, '&');
    assert query[..|piece|] == piece && query[|piece| + 1..] == rest;
  }

  /** Parsing what was encoded gives the pairs back, in order. */
  lemma {:induction false} ParseEncoded(pairs: seq<Pair>)
    requires AreBytes(pairs)
    ensures ParseQuery(Encode(pairs)) == pairs
  {
    hide EncodePair, ParsePiece, IsBytes;
    if pairs != [] {
      EncodedPieceParses(pairs[0]);
      if |pairs| == 1 {
        ParseFirstPiece(EncodePair(pairs[0]), "");
      } else {
        ParseFirstPiece(EncodePair(pairs[0]), Encode(pairs[1..]));
        ParseEncoded(pairs[1..]);
      }
    }
  }

  lemma {:induction false} ParseParts(left: string, right: string)
    ensures ParseQuery(left + "&" + right) == ParseQuery(left) + ParseQuery(right)
    decreases |left|
  {
    hide ParsePiece, IndexOf;
    var query, i := left + "&" + right, IndexOf(left, '&');
    assert query == left[..i] + ("&" + query[i + 1..]);
    IndexBehind(left[..i], "&" + query[i + 1..], '&');
    assert query[..i] == left[..i];
    if i == |left| {
      assert query[i + 1..] == right;
    } else {
      assert query[i + 1..] == left[i + 1..] + "&" + right;
      ParseParts(left[i + 1..], right);
    }
  }

  lemma PieceIs(key: string, value: string)
    requires forall i :: 0 <= i < |key| ==> key[i] != '='
    ensures ParsePiece(key + "=" + value) == Pair(UnquotePlus(key), UnquotePlus(value))
    ensures ParsePiece(key) == Pair(UnquotePlus(key), "")
  {
    hide UnquotePlus, IndexOf;
    var t := key + ("=" + value);
    assert t == key + "=" + value;
    IndexBehind(key, "=" + value, '=');
    assert t[..|key|] == key && t[|key| + 1..] == value;
    assert IndexOf(key, '=') == |key|;
  }

  lemma NoAmpersand(key: string, value: string)
    requires forall i :: 0 <= i < |key| ==> key[i] != '&'
    requires forall i :: 0 <= i < |value| ==> value[i] != '&'
    ensures var t := key + "=" + value;
            forall i :: 0 <= i < |t| ==> t[i] != '&'
  {
    var t := key + "=" + value;
    forall i | 0 <= i < |t|
      ensures t[i] != '&'
    {
      assert t[i] == if i < |key| then key[i] else if i == |key| then '=' else value[i - |key| - 1];
    }
  }

  lemma OnePair(key: string, value: string)
    requires forall i :: 0 <= i < |key| ==> key[i] != '&' && key[i] != '='
    requires forall i :: 0 <= i < |value| ==> value[i] != '&'
    ensures ParseQuery(key + "=" + value) == [Pair(UnquotePlus(key), UnquotePlus(value))]
    ensures key != "" ==> ParseQuery(key) == [Pair(UnquotePlus(key), "")]
  {
    hide UnquotePlus, ParseQuery, ParsePiece;
    PieceIs(key, value);
    NoAmpersand(key, value);
    ParseFirstPiece(key + "=" + value, "");
    if key != "" {
      ParseFirstPiece(key, "");
    }
  }

  /** An ampersand anywhere separates what is parsed on its own, so an empty piece counts for nothing
      wherever it stands; a piece is cut at its first "=", and without one it is a key with an empty value. */
  lemma ParseLaws(left: string, key: string, value: string, right: string)
    requires forall i :: 0 <= i < |key| ==> key[i] != '&' && key[i] != '='
    requires forall i :: 0 <= i < |value| ==> value[i] != '&'
    ensures ParseQuery(left + "&" + right) == ParseQuery(left) + ParseQuery(right)
    ensures ParseQuery(left + "&&" + right) == ParseQuery(left + "&" + right)
    ensures ParseQuery("&" + right) == ParseQuery(right + "&") == ParseQuery(right) && ParseQuery("") == []
    ensures ParseQuery(key + "=" + value) == [Pair(UnquotePlus(key), UnquotePlus(value))]
    ensures key != "" ==> ParseQuery(key) == [Pair(UnquotePlus(key), "")]
  {
    hide ParseQuery, UnquotePlus;
    ParseParts(left, right);
    EmptyPieces(left, right);
    NothingToParse();
    OnePair(key, value);
  }

  lemma EmptyPieces(left: string, right: string)
    ensures ParseQuery(left + "&&" + right) == ParseQuery(left + "&" + right)
    ensures ParseQuery("&" + right) == ParseQuery(right + "&") == ParseQuery(right)
  {
    hide ParseQuery;
    NothingToParse();
    ParseParts("", right);
    ParseParts(right, "");
    assert "" + "&" + right == "&" + right && right + "&" + "" == right + "&";
    ParseParts(left, right);
    ParseParts(left, "&" + right);
    assert left + "&" + ("&" + right) == left + "&&" + right;
  }

  lemma NothingToParse()
    ensures ParseQuery("") == []
  {
  }

  lemma {:induction false} ParseGivesBytes(query: string)
    requires IsBytes(query)
    ensures AreBytes(ParseQuery(query))
    decreases |query|
  {
    var i := IndexOf(query, '&');
    if i > 0 {
      var piece := query[..i];
      var j := IndexOf(piece, '=');
      UnquoteGivesBytes(PlusToSpace(piece));
      UnquoteGivesBytes(PlusToSpace(piece[..j]));
      if j < |piece| {
        UnquoteGivesBytes(PlusToSpace(piece[j + 1..]));
      }
    }
    if i < |query| {
      ParseGivesBytes(query[i + 1..]);
    }
  }

  // ----- Masking the query -----

  function MaskPair(pair: Pair): Pair {
    if ContainsKeyword(pair.key) then pair.(value := MASK) else pair
  }

  function MaskPairs(pairs: seq<Pair>): (r: seq<Pair>)
    ensures |r| == |pairs|
    ensures forall i :: 0 <= i < |pairs| ==> r[i] == MaskPair(pairs[i])
  {
    seq(|pairs|, i requires 0 <= i < |pairs| => MaskPair(pairs[i]))
  }

  lemma MaskedPairsAreBytes(pairs: seq<Pair>)
    requires AreBytes(pairs)
    ensures AreBytes(MaskPairs(pairs))
  {
  }

  function MaskedQuery(query: string): string
    requires IsBytes(query)
  {
    ParseGivesBytes(query);
    MaskedPairsAreBytes(ParseQuery(query));
    Encode(MaskPairs(ParseQuery(query)))
  }

  method MaskQuery(query: string) returns (r: string)
    requires IsBytes(query)
    ensures r == MaskedQuery(query)
  {
    var parsed := ParseQuery(query);
    ParseGivesBytes(query);
    MaskedPairsAreBytes(parsed);
    var queryPairs: seq<Pair> := [];
    for i := 0 to |parsed|
      invariant queryPairs == MaskPairs(parsed)[..i]
    {
      var pair := parsed[i];
      queryPairs := queryPairs + [Pair(pair.key, if ContainsKeyword(pair.key) then MASK else pair.value)];
    }
    assert queryPairs == MaskPairs(parsed);
    r := Encode(queryPairs);
  }

  /** Pairs are printed with "=" inside and one "&" between them. */
  lemma {:induction false} EncodedAs(left: seq<Pair>, pair: Pair, right: seq<Pair>)
    requires AreBytes(left) && AreBytes(right) && AreBytes(left + right)
    requires IsBytes(pair.key) && IsBytes(pair.value)
    ensures Encode([pair]) == QuotePlus(pair.key) + "=" + QuotePlus(pair.value) && Encode([]) == ""
    ensures left != [] && right != [] ==> Encode(left + right) == Encode(left) + "&" + Encode(right)
    decreases |left|
  {
    hide QuotePlus, IsBytes;
    assert [pair][0] == pair;
    if |left| > 1 && right != [] {
      EncodedAs(left[1..], pair, right);
      assert (left + right)[1..] == left[1..] + right;
    } else if |left| == 1 && right != [] {
      assert (left + right)[1..] == right && (left + right)[0] == left[0];
    }
  }

  /** The masked query parses to the pairs of the input, in order, with the value of every sensitive key,
      and of no other key, replaced by the mask; and it is what these pairs are printed as. */
  lemma MaskedQueryParses(query: string)
    requires IsBytes(query)
    ensures var before, after := ParseQuery(query), ParseQuery(MaskedQuery(query));
            && |after| == |before| && AreBytes(after) && MaskedQuery(query) == Encode(after)
            && forall i :: 0 <= i < |before| ==>
                 && after[i].key == before[i].key
                 && after[i].value == if ContainsKeyword(before[i].key) then "***" else before[i].value
  {
    ParseGivesBytes(query);
    MaskedPairsAreBytes(ParseQuery(query));
    ParseEncoded(MaskPairs(ParseQuery(query)));
  }

  // What an encoded query is made of: no "#", no space, nothing that ends a query in a URL.
  predicate InQueryAlphabet(s: string) {
    forall i :: 0 <= i < |s| ==> IsUnreserved(s[i]) || s[i] == '%' || s[i] == '+' || s[i] == '=' || s[i] == '&'
  }

  lemma {:induction false} EncodedAlphabet(pairs: seq<Pair>)
    requires AreBytes(pairs)
    ensures InQueryAlphabet(Encode(pairs))
  {
    if pairs != [] {
      QuotedAlphabet(pairs[0].key);
      QuotedAlphabet(pairs[0].value);
      EncodedAlphabet(pairs[1..]);
    }
  }

  /** Masking a query twice is masking it once, and the result can stand in a URL. */
  lemma MaskingQueryIsIdempotent(query: string)
    requires IsBytes(query)
    ensures var once := MaskedQuery(query);
            InQueryAlphabet(once) && IsBytes(once) && MaskedQuery(once) == once
  {
    var pairs := ParseQuery(query);
    ParseGivesBytes(query);
    MaskedPairsAreBytes(pairs);
    EncodedAlphabet(MaskPairs(pairs));
    ParseEncoded(MaskPairs(pairs));
    assert MaskPairs(MaskPairs(pairs)) == MaskPairs(pairs);
  }

  /** Two queries have the same masked form exactly when their masked pairs are the same. */
  lemma MaskedQueryDeterminesPairs(a: string, b: string)
    requires IsBytes(a) && IsBytes(b)
    ensures MaskedQuery(a) == MaskedQuery(b) <==> MaskPairs(ParseQuery(a)) == MaskPairs(ParseQuery(b))
  {
    ParseGivesBytes(a);
    ParseGivesBytes(b);
    MaskedPairsAreBytes(ParseQuery(a));
    MaskedPairsAreBytes(ParseQuery(b));
    ParseEncoded(MaskPairs(ParseQuery(a)));
    ParseEncoded(MaskPairs(ParseQuery(b)));
  }
}

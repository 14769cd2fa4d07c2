/** `_error_type`: the name of an exception class in snake case.  Names are ASCII. */
module ErrorTypes {
  import opened Texts

  // The characters behind the first one: an underscore in front of each capital.
  function Snake(s: string): string {
    if s == "" then ""
    else (if IsUpper(s[0]) then ['_', ToLower(s[0])] else [s[0]]) + Snake(s[1..])
  }

  function ErrorType(name: string): string {
    if name == "" then "error" else [ToLower(name[0])] + Snake(name[1..])
  }

  lemma {:induction false} SnakeOneMore(s: string, c: char)
    ensures Snake(s + [c]) == Snake(s) + if IsUpper(c) then ['_', ToLower(c)] else [c]
  {
    if s == "" {
      assert s + [c] == [c];
      assert [c][1..] == "";
    } else {
      assert (s + [c])[1..] == s[1..] + [c];
      SnakeOneMore(s[1..], c);
    }
  }

  method ComputeErrorType(name: string) returns (r: string)
    ensures r == ErrorType(name)
  {
    var characters := "";
    for index := 0 to |name|
      invariant index == 0 ==> characters == ""
      invariant index > 0 ==> characters == [ToLower(name[0])] + Snake(name[1..index])
    {
      var c := name[index];
      if index > 0 {
        SnakeOneMore(name[1..index], c);
        assert name[1..index + 1] == name[1..index] + [c];
      }
      if IsUpper(c) && index > 0 {
        characters := characters + ['_'];
      }
      characters := characters + [ToLower(c)];
    }
    assert name[..|name|] == name;
    r := if characters == "" then "error" else characters;
  }

  // ----- Reading the name back -----

  // The words between underscores, each with its first letter capitalised, put together;
  // `atStart` says that the next character starts a word.
  function Camel(s: string, atStart: bool): string {
    if s == "" then ""
    else if s[0] == '_' then Camel(s[1..], true)
    else [if atStart then ToUpper(s[0]) else s[0]] + Camel(s[1..], false)
  }

  function ClassName(errorType: string): string {
    Camel(errorType, true)
  }

  predicate HasNoUnderscore(s: string) {
    forall i :: 0 <= i < |s| ==> s[i] != '_'
  }

  lemma {:induction false} CamelOfSnake(s: string)
    requires HasNoUnderscore(s)
    ensures Camel(Snake(s), false) == s
  {
    if s != "" {
      CamelOfSnake(s[1..]);
      var t := Snake(s);
      if IsUpper(s[0]) {
        assert t[1..][1..] == Snake(s[1..]);
        assert t[1..][0] == ToLower(s[0]);
      } else {
        assert t[1..] == Snake(s[1..]);
      }
    }
  }

  function Underscores(s: string): nat {
    if s == "" then 0 else (if s[0] == '_' then 1 else 0) + Underscores(s[1..])
  }

  function Capitals(s: string): nat {
    if s == "" then 0 else (if IsUpper(s[0]) then 1 else 0) + Capitals(s[1..])
  }

  lemma {:induction false} CamelLength(s: string, atStart: bool)
    ensures |Camel(s, atStart)| + Underscores(s) == |s|
  {
    if s != "" {
      CamelLength(s[1..], s[0] == '_');
    }
  }

  lemma {:induction false} SnakeLength(s: string)
    ensures |Snake(s)| == |s| + Capitals(s) && Underscores(Snake(s)) == Underscores(s) + Capitals(s)
  {
    if s != "" {
      SnakeLength(s[1..]);
      var t := Snake(s);
      if IsUpper(s[0]) {
        assert t[1..][1..] == Snake(s[1..]);
        assert Underscores(t) == 1 + Underscores(t[1..]);
      } else {
        assert t[1..] == Snake(s[1..]);
      }
    }
  }

  lemma {:induction false} NoUnderscores(s: string)
    ensures Underscores(s) == 0 <==> HasNoUnderscore(s)
  {
    if s != "" {
      NoUnderscores(s[1..]);
      assert HasNoUnderscore(s) <==> s[0] != '_' && HasNoUnderscore(s[1..]);
    }
  }

  /** The class name can be read back from the error type exactly when it has no underscore and
      does not start with a small letter. */
  lemma ClassNameReadBackIff(name: string)
    requires name != ""
    ensures ClassName(ErrorType(name)) == name <==> HasNoUnderscore(name) && !IsLower(name[0])
  {
    var first, rest := name[0], name[1..];
    var t := ErrorType(name);
    assert t[1..] == Snake(rest);
    NoUnderscores(name);
    if HasNoUnderscore(name) {
      CamelOfSnake(rest);
      assert name == [first] + rest;
    } else {
      CamelLength(t, true);
      SnakeLength(rest);
      assert Underscores(t) == (if ToLower(first) == '_' then 1 else 0) + Underscores(Snake(rest));
    }
  }

  /** Distinct class names of this kind get distinct error types. */
  lemma ErrorTypesAreDistinct(a: string, b: string)
    requires a != "" && HasNoUnderscore(a) && !IsLower(a[0])
    requires b != "" && HasNoUnderscore(b) && !IsLower(b[0])
    ensures ErrorType(a) == ErrorType(b) <==> a == b
  {
    ClassNameReadBackIff(a);
    ClassNameReadBackIff(b);
  }

  // ----- Letter by letter -----

  /** An empty name gives "error"; the first character is written in small letters, and each further one too,
      with an underscore in front of it if it is a capital. */
  lemma ErrorTypeIs(name: string, c: char)
    ensures ErrorType("") == "error"
    ensures var small := if 'A' <= c <= 'Z' then (c as int + 32) as char else c;
            && ErrorType([c]) == [small]
            && (name != "" ==> ErrorType(name + [c]) == ErrorType(name) + if 'A' <= c <= 'Z' then ['_', small] else [c])
  {
    assert [c][1..] == "";
    if name != "" {
      assert (name + [c])[1..] == name[1..] + [c];
      SnakeOneMore(name[1..], c);
    }
  }

  /** Each capital of an abbreviation has its own underscore. */
  lemma AbbreviationIsSpelled()
    ensures ErrorType("IOError") == "i_o_error"
  {
    ErrorTypeIs("", 'I');
    ErrorTypeIs("I", 'O');
    ErrorTypeIs("IO", 'E');
    ErrorTypeIs("IOE", 'r');
    ErrorTypeIs("IOEr", 'r');
    ErrorTypeIs("IOErr", 'o');
    ErrorTypeIs("IOErro", 'r');
    hide ErrorType;
    assert "I" + "O" == "IO" && "IO" + "E" == "IOE" && "IOE" + "r" == "IOEr" && "IOEr" + "r" == "IOErr";
    assert "IOErr" + "o" == "IOErro" && "IOErro" + "r" == "IOError";
  }
}

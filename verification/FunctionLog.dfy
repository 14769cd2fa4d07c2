/** `log_function_boundary`: a decorated call writes a start record, runs, and writes an end record
    or an error record.  The calls of one thread (or one asyncio task) form a forest. */
module FunctionLog {

  datatype Record = Start(event: string) | End(event: string) | Error(event: string)

  // A call: its event name, the decorated calls made by its body, and whether it returned.
  datatype Call = Call(event: string, body: Forest, returned: bool)
  datatype Forest = Nil | Cons(head: Call, tail: Forest)

  // ----- The records a forest of calls writes -----

  function Closing(call: Call): Record {
    if call.returned then End(call.event) else Error(call.event)
  }

  function Trace(calls: Forest): seq<Record> {
    match calls
    case Nil => []
    case Cons(call, rest) => [Start(call.event)] + Trace(call.body) + [Closing(call)] + Trace(rest)
  }

  // The log of one thread.
  class Logger {
    var records: seq<Record>

    constructor ()
      ensures records == []
    {
      records := [];
    }

    method Info(record: Record)
      modifies this
      ensures records == old(records) + [record]
    {
      records := records + [record];
    }

    // The wrapper around one call: what it adds to the log, and that it passes the outcome on.
    method Wrapper(call: Call) returns (returned: bool)
      modifies this
      ensures records == old(records) + [Start(call.event)] + Trace(call.body)
                         + [if call.returned then End(call.event) else Error(call.event)]
      ensures returned == call.returned
      decreases call
    {
      Info(Start(call.event));
      RunBody(call.body);
      if !call.returned {
        Info(Error(call.event));
        return false;
      }
      Info(End(call.event));
      return true;
    }

    // The decorated calls a body makes, one after the other; it may catch what they raise.
    method RunBody(calls: Forest)
      modifies this
      ensures records == old(records) + Trace(calls)
      decreases calls
    {
      if calls.Cons? {
        var _ := Wrapper(calls.head);
        RunBody(calls.tail);
      }
    }
  }

  // One forest after the other.
  function Concat(a: Forest, b: Forest): Forest {
    match a
    case Nil => b
    case Cons(call, rest) => Cons(call, Concat(rest, b))
  }

  lemma {:induction false} TraceConcat(a: Forest, b: Forest)
    ensures Trace(Concat(a, b)) == Trace(a) + Trace(b)
    decreases a
  {
    match a
    case Nil =>
      assert [] + Trace(b) == Trace(b);
    case Cons(call, rest) =>
      TraceConcat(rest, b);
      assert Trace(Concat(a, b)) == [Start(call.event)] + Trace(call.body) + [Closing(call)] + (Trace(rest) + Trace(b));
  }

  /** A call writes its start record, what its body writes, and its end record if it returns, its error record
      if it raises; calls made one after the other write their records one after the other. */
  lemma TraceIs(call: Call, a: Forest, b: Forest)
    ensures Trace(Nil) == []
    ensures Trace(Cons(call, Nil)) ==
              [Start(call.event)] + Trace(call.body) + [if call.returned then End(call.event) else Error(call.event)]
    ensures Trace(Concat(a, b)) == Trace(a) + Trace(b)
  {
    assert Trace(Cons(call, Nil)) == [Start(call.event)] + Trace(call.body) + [Closing(call)] + Trace(Nil);
    TraceConcat(a, b);
  }

  /** A call that catches what the call inside it raises. */
  lemma CaughtErrorIsLogged()
    ensures Trace(Cons(Call("outer", Cons(Call("inner", Nil, false), Nil), true), Nil))
         == [Start("outer"), Start("inner"), Error("inner"), End("outer")]
  {
    TraceIs(Call("outer", Cons(Call("inner", Nil, false), Nil), true), Nil, Nil);
    TraceIs(Call("inner", Nil, false), Nil, Nil);
  }

  // ----- Reading the calls back -----

  datatype Parse = Parse(calls: Forest, rest: seq<Record>)

  // The longest forest at the front of the records, and the records behind it.
  function ParseForest(records: seq<Record>): (p: Parse)
    ensures |p.rest| <= |records|
    decreases |records|
  {
    if records == [] || !records[0].Start? then Parse(Nil, records)
    else
      var body := ParseForest(records[1..]);
      if body.rest == [] || body.rest[0].Start? || body.rest[0].event != records[0].event then Parse(Nil, records)
      else
        var call := Call(records[0].event, body.calls, body.rest[0].End?);
        var more := ParseForest(body.rest[1..]);
        Parse(Cons(call, more.calls), more.rest)
  }

  // What can follow a forest without being taken for one more call of it.
  predicate Ends(records: seq<Record>) {
    records == [] || !records[0].Start?
  }

  lemma Regroup<T>(a: T, b: seq<T>, c: T, d: seq<T>, e: seq<T>)
    ensures [a] + (b + ([c] + (d + e))) == ([a] + b + [c] + d) + e
  {
  }

  lemma {:induction false} ParseTraceThen(calls: Forest, rest: seq<Record>)
    requires Ends(rest)
    ensures ParseForest(Trace(calls) + rest) == Parse(calls, rest)
  {
    match calls
    case Nil =>
      assert Trace(calls) + rest == rest;
    case Cons(call, tail) =>
      var records := Trace(calls) + rest;
      var behind := Trace(tail) + rest;
      assert records == [Start(call.event)] + (Trace(call.body) + ([Closing(call)] + behind)) by {
        Regroup(Start(call.event), Trace(call.body), Closing(call), Trace(tail), rest);
      }
      assert records[1..] == Trace(call.body) + ([Closing(call)] + behind);
      ParseTraceThen(call.body, [Closing(call)] + behind);
      assert ([Closing(call)] + behind)[1..] == behind;
      ParseTraceThen(tail, rest);
  }

  /** The log of a thread determines the forest of its calls, with their outcomes. */
  lemma TraceDeterminesCalls(calls: Forest)
    ensures ParseForest(Trace(calls)) == Parse(calls, [])
  {
    assert Trace(calls) + [] == Trace(calls);
    ParseTraceThen(calls, []);
  }

  /** No two forests of calls write the same log. */
  lemma DifferentCallsDifferentLogs(a: Forest, b: Forest)
    requires Trace(a) == Trace(b)
    ensures a == b
  {
    TraceDeterminesCalls(a);
    TraceDeterminesCalls(b);
  }

  /** What the parser reads is there: its calls write the records in front of the rest. */
  lemma {:induction false} ParsedRecordsAreTheTrace(records: seq<Record>)
    ensures var p := ParseForest(records);
            records == Trace(p.calls) + p.rest
    decreases |records|
  {
    var p := ParseForest(records);
    if p.calls.Nil? {
      assert [] + records == records;
    } else {
      var body := ParseForest(records[1..]);
      var more := ParseForest(body.rest[1..]);
      ParsedRecordsAreTheTrace(records[1..]);
      ParsedRecordsAreTheTrace(body.rest[1..]);
      assert records == [records[0]] + (Trace(body.calls) + ([body.rest[0]] + (Trace(more.calls) + more.rest))) by {
        hide ParseForest, Trace;
        assert records == [records[0]] + records[1..];
        assert body.rest == [body.rest[0]] + body.rest[1..];
      }
      Regroup(records[0], Trace(body.calls), body.rest[0], Trace(more.calls), more.rest);
    }
  }

  /** Exactly the logs that the parser reads to the end are logs of some forest of calls. */
  lemma LogIffParsed(records: seq<Record>)
    ensures (exists calls :: Trace(calls) == records) <==> ParseForest(records).rest == []
  {
    if ParseForest(records).rest == [] {
      ParsedRecordsAreTheTrace(records);
      assert Trace(ParseForest(records).calls) + [] == Trace(ParseForest(records).calls);
    }
    forall calls | Trace(calls) == records
      ensures ParseForest(records).rest == []
    {
      TraceDeterminesCalls(calls);
    }
  }

  // ----- Bracketing -----

  // The open calls after the records, innermost last; None when a record closes the wrong call.
  datatype Stack = Stack(open: seq<string>) | Broken

  function Scan(stack: Stack, records: seq<Record>): Stack
    decreases |records|
  {
    if records == [] || stack.Broken? then stack
    else
      var record, n := records[0], |stack.open|;
      if record.Start? then Scan(Stack(stack.open + [record.event]), records[1..])
      else if n > 0 && stack.open[n - 1] == record.event then Scan(Stack(stack.open[..n - 1]), records[1..])
      else Broken
  }

  lemma {:induction false} ScanAppend(stack: Stack, a: seq<Record>, b: seq<Record>)
    ensures Scan(stack, a + b) == Scan(Scan(stack, a), b)
    decreases |a|
  {
    if a == [] {
      assert a + b == b;
    } else {
      assert (a + b)[1..] == a[1..] + b;
      if stack.Stack? {
        var n := |stack.open|;
        if a[0].Start? {
          ScanAppend(Stack(stack.open + [a[0].event]), a[1..], b);
        } else if n > 0 && stack.open[n - 1] == a[0].event {
          ScanAppend(Stack(stack.open[..n - 1]), a[1..], b);
        }
      }
    }
  }

  /** Records are well bracketed: a forest of calls closes exactly what it opened, whatever was
      open before it. */
  lemma {:induction false} TraceIsBracketed(open: seq<string>, calls: Forest)
    ensures Scan(Stack(open), Trace(calls)) == Stack(open)
    decreases calls
  {
    match calls
    case Nil =>
    case Cons(call, tail) =>
      var inside := open + [call.event];
      ScanAppend(Stack(open), [Start(call.event)], Trace(call.body) + [Closing(call)] + Trace(tail));
      assert Trace(calls) == [Start(call.event)] + (Trace(call.body) + [Closing(call)] + Trace(tail));
      ScanAppend(Stack(inside), Trace(call.body) + [Closing(call)], Trace(tail));
      ScanAppend(Stack(inside), Trace(call.body), [Closing(call)]);
      TraceIsBracketed(inside, call.body);
      assert inside[..|open|] == open;
      TraceIsBracketed(open, tail);
  }

  // The parser stops only where no further call can be read.
  lemma {:induction false} ParserStopsForGood(records: seq<Record>)
    ensures var rest := ParseForest(records).rest;
            ParseForest(rest) == Parse(Nil, rest)
    decreases |records|
  {
    if ParseForest(records).calls.Cons? {
      var body := ParseForest(records[1..]);
      ParserStopsForGood(body.rest[1..]);
    }
  }

  // Records that start a call that cannot be read leave that call open, or break the bracketing.
  lemma {:induction false} UnreadableCallStaysOpen(open: seq<string>, records: seq<Record>)
    requires records != [] && records[0].Start? && ParseForest(records) == Parse(Nil, records)
    ensures var after := Scan(Stack(open), records);
            after.Broken? || |after.open| > |open|
    decreases |records|
  {
    var inside := open + [records[0].event];
    var body := ParseForest(records[1..]);
    ParsedRecordsAreTheTrace(records[1..]);
    ScanAppend(Stack(inside), Trace(body.calls), body.rest);
    TraceIsBracketed(inside, body.calls);
    if body.rest != [] && body.rest[0].Start? {
      ParserStopsForGood(records[1..]);
      UnreadableCallStaysOpen(inside, body.rest);
    }
  }

  /** The logs of forests of calls are exactly the well-bracketed record sequences. */
  lemma LogIffBracketed(records: seq<Record>)
    ensures (exists calls :: Trace(calls) == records) <==> Scan(Stack([]), records) == Stack([])
  {
    LogIffParsed(records);
    var p := ParseForest(records);
    ParsedRecordsAreTheTrace(records);
    ScanAppend(Stack([]), Trace(p.calls), p.rest);
    TraceIsBracketed([], p.calls);
    if p.rest != [] && p.rest[0].Start? {
      ParserStopsForGood(records);
      UnreadableCallStaysOpen([], p.rest);
    }
  }
}

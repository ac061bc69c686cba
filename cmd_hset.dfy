// cmd/hset/main.go: each input line is `key TAB json`, stored with HSET.
// JSON decoding (RFC 8259, into a Go map) is the predicate `decodes`; the
// Redis command is the oracle `redis(i, c)` for the `i`-th line received.
module HsetCmd {
  import opened Wrappers
  import opened Text
  import opened Results
  import opened Workers

  /** HSET of the fields the JSON object `json` decodes to. */
  datatype Command = HSet(key: string, json: string)

  const BadTokens: string := "Number of tokens != 2"
  const InvalidJson: string := "Invalid json"

  /** The loop body of `hset` for one line: split, decode, then HSET. */
  function HsetStep(line: string, i: nat, decodes: string -> bool,
                    redis: (nat, Command) -> Outcome): Step<Command>
  {
    var token := SplitN(line, '\t', 2);
    if |token| != 2 then Step([BadTokens], [], [])
    else if !decodes(token[1]) then Step([InvalidJson], [], [])
    else
      var c := HSet(token[0], token[1]);
      match redis(i, c)
      case Fail(msg) => Step([msg], [c], [])
      case Pass => Step([], [c], [])
  }

  function HsetRun(lines: seq<string>, decodes: string -> bool,
                   redis: (nat, Command) -> Outcome): Step<Command>
  {
    if lines == [] then NoStep()
    else Then(HsetRun(lines[..|lines| - 1], decodes, redis),
              HsetStep(lines[|lines| - 1], |lines| - 1, decodes, redis))
  }

  /**
   * HSET is issued exactly when the line has a tab and the text after the
   * first tab decodes; then it stores that text under the tab-free key before
   * it, and records HSET's failure message or nothing. Each line records at
   * most one error.
   */
  lemma HsetStepChecks(line: string, i: nat, decodes: string -> bool,
                       redis: (nat, Command) -> Outcome)
    ensures var s := HsetStep(line, i, decodes, redis);
      |s.errors| <= 1 && s.output == [] &&
      (s.calls != [] <==> '\t' in line && decodes(SplitN(line, '\t', 2)[1])) &&
      ('\t' !in line ==> s.errors == [BadTokens]) &&
      ('\t' in line && !decodes(SplitN(line, '\t', 2)[1]) ==> s.errors == [InvalidJson]) &&
      (s.calls != [] ==> |s.calls| == 1 && '\t' !in s.calls[0].key &&
                         s.calls[0].key + "\t" + s.calls[0].json == line) &&
      (s.calls != [] ==>
         s.errors == if redis(i, s.calls[0]).Fail? then [redis(i, s.calls[0]).msg] else [])
  {
    SplitNTwo(line, '\t');
    if '\t' in line {
      FirstTab(line);
    }
  }

  method HsetLine(result: Result, line: string, i: nat, decodes: string -> bool,
                  redis: (nat, Command) -> Outcome) returns (calls: seq<Command>)
    modifies result.Errors
    ensures result.Errors.counts == Record(old(result.Errors.counts), HsetStep(line, i, decodes, redis).errors)
    ensures calls == HsetStep(line, i, decodes, redis).calls
  {
    calls := [];
    var token := SplitN(line, '\t', 2);
    if |token| != 2 {
      AddError(result, BadTokens);
      RecordOne(old(result.Errors.counts), BadTokens);
      return;
    }
    if !decodes(token[1]) {
      AddError(result, InvalidJson);
      RecordOne(old(result.Errors.counts), InvalidJson);
      return;
    }
    var c := HSet(token[0], token[1]);
    calls := [c];
    var err := redis(i, c);
    if err.Fail? {
      AddError(result, err.msg);
      RecordOne(old(result.Errors.counts), err.msg);
      return;
    }
  }

  /** The worker `hset`: every line counted, errors tallied in order, `BadCount` zero. */
  method HsetWorker(lines: seq<string>, decodes: string -> bool, redis: (nat, Command) -> Outcome)
    returns (result: Result, calls: seq<Command>)
    ensures result.Lines == |lines| && result.BadCount == 0
    ensures result.Errors.counts == Tally(HsetRun(lines, decodes, redis).errors)
    ensures calls == HsetRun(lines, decodes, redis).calls
  {
    result := NewResult();
    calls := [];
    var lc := 0;
    while lc < |lines|
      invariant 0 <= lc <= |lines|
      invariant fresh(result.Errors)
      invariant result.Lines == 0 && result.BadCount == 0
      invariant result.Errors.counts == Tally(HsetRun(lines[..lc], decodes, redis).errors)
      invariant calls == HsetRun(lines[..lc], decodes, redis).calls
    {
      var line := lines[lc];
      ghost var before := HsetRun(lines[..lc], decodes, redis);
      var more := HsetLine(result, line, lc, decodes, redis);
      TallyThen(before.errors, HsetStep(line, lc, decodes, redis).errors);
      calls := calls + more;
      assert lines[..lc + 1][..lc] == lines[..lc];
      lc := lc + 1;
    }
    assert lines[..lc] == lines;
    result := result.(Lines := lc);
  }
}

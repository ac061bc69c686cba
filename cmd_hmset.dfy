// cmd/hmset/main.go: each input line is `key TAB json TAB ttl`, stored with
// HMSET and, unless the TTL is "-1", given an expiry with PEXPIRE.
// JSON decoding is the predicate `decodes`; each Redis command is answered by
// the oracle `redis(i, c)` for the `i`-th line received.
module HmsetCmd {
  import opened Wrappers
  import opened Text
  import opened Results
  import opened Workers

  /** HMSET of the fields `json` decodes to; PEXPIRE in `ms` milliseconds. */
  datatype Command = HMSet(key: string, json: string) | PExpire(key: string, ms: int)

  const BadTokens: string := "Number of tokens != 3"
  const InvalidJson: string := "Invalid json"
  const NeverExpire: string := "-1"

  /** The loop body of `hmset` for one line. */
  function HmsetStep(line: string, i: nat, decodes: string -> bool,
                     redis: (nat, Command) -> Outcome): Step<Command>
  {
    var token := SplitN(line, '\t', 3);
    if |token| != 3 then Step([BadTokens], [], [])
    else if !decodes(token[1]) then Step([InvalidJson], [], [])
    else
      var h := HMSet(token[0], token[1]);
      match redis(i, h)
      case Fail(msg) => Step([msg], [h], [])
      case Pass =>
        if token[2] == NeverExpire then Step([], [h], [])
        else
          match ParseInt64(token[2])
          case Err(msg) => Step([msg], [h], [])
          case Ok(ms) =>
            var e := PExpire(token[0], ms);
            match redis(i, e)
            case Fail(msg) => Step([msg], [h, e], [])
            case Pass => Step([], [h, e], [])
  }

  function HmsetRun(lines: seq<string>, decodes: string -> bool,
                    redis: (nat, Command) -> Outcome): Step<Command>
  {
    if lines == [] then NoStep()
    else Then(HmsetRun(lines[..|lines| - 1], decodes, redis),
              HmsetStep(lines[|lines| - 1], |lines| - 1, decodes, redis))
  }

  /**
   * A line with two tabs or more splits into a tab-free key, a tab-free JSON
   * text and a TTL field holding everything after the second tab.
   */
  lemma ThreeFields(line: string)
    requires Count(line, '\t') >= 2
    ensures var t := SplitN(line, '\t', 3);
      |t| == 3 && '\t' !in t[0] && '\t' !in t[1] && t[0] + "\t" + t[1] + "\t" + t[2] == line
  {
    CountedPresent(line, '\t');
    var i := IndexOf(line, '\t');
    var key := line[..i];
    var rest := line[i + 1..];
    FirstTab(line);
    SplitNTwo(line, '\t');
    assert key + "\t" + rest == line;
    SplitNFirst(line, '\t', 3);
    assert SplitN(line, '\t', 3) == [key] + SplitN(rest, '\t', 2);
    CountAfterFirst(line, '\t');
    CountedPresent(rest, '\t');
    FirstTab(rest);
    var u := SplitN(rest, '\t', 2);
    assert u[0] + "\t" + u[1] == rest;
    TabsAssociate(key, u[0], u[1]);
  }

  lemma TabsAssociate(a: string, b: string, c: string)
    ensures a + "\t" + b + "\t" + c == a + "\t" + (b + "\t" + c)
  {
  }

  /** A character counted at least once occurs. */
  lemma CountedPresent(s: string, c: char)
    requires Count(s, c) >= 1
    ensures c in s
  {
    if c !in s {
      CountAbsent(s, c);
    }
  }

  /** SplitN into three yields three fields exactly when there are two tabs or more. */
  lemma ThreeFieldsCount(line: string)
    ensures |SplitN(line, '\t', 3)| == 3 <==> Count(line, '\t') >= 2
  {
    SplitNCount(line, '\t', 3);
  }

  /**
   * HMSET is issued exactly when the line has three fields and the middle one
   * decodes; it stores the JSON under the key. Only after HMSET succeeds does
   * the TTL field count: "-1" issues nothing more, an unparsable TTL records
   * the parse error although the hash is already stored, and any other value
   * issues PEXPIRE with that many milliseconds. Each line records at most one error.
   */
  lemma HmsetStepChecks(line: string, i: nat, decodes: string -> bool,
                        redis: (nat, Command) -> Outcome)
    ensures var s := HmsetStep(line, i, decodes, redis);
      var t := SplitN(line, '\t', 3);
      |s.errors| <= 1 && s.output == [] && |s.calls| <= 2 &&
      (s.calls != [] <==> |t| == 3 && decodes(t[1])) &&
      (|t| != 3 ==> s.errors == [BadTokens]) &&
      (|t| == 3 && !decodes(t[1]) ==> s.errors == [InvalidJson]) &&
      (s.calls != [] ==> s.calls[0] == HMSet(t[0], t[1]))
  {
  }

  lemma HmsetExpiry(line: string, i: nat, decodes: string -> bool,
                    redis: (nat, Command) -> Outcome)
    requires var t := SplitN(line, '\t', 3); |t| == 3 && decodes(t[1])
    ensures var s := HmsetStep(line, i, decodes, redis);
      var t := SplitN(line, '\t', 3);
      var h := HMSet(t[0], t[1]);
      (redis(i, h).Fail? ==> s.calls == [h] && s.errors == [redis(i, h).msg]) &&
      (redis(i, h).Pass? && t[2] == NeverExpire ==> s.calls == [h] && s.errors == []) &&
      (redis(i, h).Pass? && t[2] != NeverExpire && ParseInt64(t[2]).Err? ==>
         s.calls == [h] && s.errors == [ParseInt64(t[2]).msg]) &&
      (redis(i, h).Pass? && t[2] != NeverExpire && ParseInt64(t[2]).Ok? ==>
         var e := PExpire(t[0], ParseInt64(t[2]).value);
         s.calls == [h, e] &&
         s.errors == if redis(i, e).Fail? then [redis(i, e).msg] else [])
  {
  }

  method HmsetLine(result: Result, line: string, i: nat, decodes: string -> bool,
                   redis: (nat, Command) -> Outcome) returns (calls: seq<Command>)
    modifies result.Errors
    ensures result.Errors.counts == Record(old(result.Errors.counts), HmsetStep(line, i, decodes, redis).errors)
    ensures calls == HmsetStep(line, i, decodes, redis).calls
  {
    calls := [];
    var token := SplitN(line, '\t', 3);
    if |token| != 3 {
      AddError(result, BadTokens);
      RecordOne(old(result.Errors.counts), BadTokens);
      return;
    }
    if !decodes(token[1]) {
      AddError(result, InvalidJson);
      RecordOne(old(result.Errors.counts), InvalidJson);
      return;
    }
    var h := HMSet(token[0], token[1]);
    calls := [h];
    var err := redis(i, h);
    if err.Fail? {
      AddError(result, err.msg);
      RecordOne(old(result.Errors.counts), err.msg);
      return;
    }
    var ms := token[2];
    if ms != NeverExpire {
      var parsed := ParseInt64(ms);
      if parsed.Err? {
        AddError(result, parsed.msg);
        RecordOne(old(result.Errors.counts), parsed.msg);
        return;
      }
      var e := PExpire(token[0], parsed.value);
      calls := calls + [e];
      err := redis(i, e);
      if err.Fail? {
        AddError(result, err.msg);
        RecordOne(old(result.Errors.counts), err.msg);
        return;
      }
    }
  }

  /** The worker `hmset`: every line counted, errors tallied in order, `BadCount` zero. */
  method HmsetWorker(lines: seq<string>, decodes: string -> bool, redis: (nat, Command) -> Outcome)
    returns (result: Result, calls: seq<Command>)
    ensures result.Lines == |lines| && result.BadCount == 0
    ensures result.Errors.counts == Tally(HmsetRun(lines, decodes, redis).errors)
    ensures calls == HmsetRun(lines, decodes, redis).calls
  {
    result := NewResult();
    calls := [];
    var lc := 0;
    while lc < |lines|
      invariant 0 <= lc <= |lines|
      invariant fresh(result.Errors)
      invariant result.Lines == 0 && result.BadCount == 0
      invariant result.Errors.counts == Tally(HmsetRun(lines[..lc], decodes, redis).errors)
      invariant calls == HmsetRun(lines[..lc], decodes, redis).calls
    {
      var line := lines[lc];
      ghost var before := HmsetRun(lines[..lc], decodes, redis);
      var more := HmsetLine(result, line, lc, decodes, redis);
      TallyThen(before.errors, HmsetStep(line, lc, decodes, redis).errors);
      calls := calls + more;
      assert lines[..lc + 1][..lc] == lines[..lc];
      lc := lc + 1;
    }
    assert lines[..lc] == lines;
    result := result.(Lines := lc);
  }
}

// cmd/get/main.go: each input line is a key; GET its value and PTTL its
// remaining time to live, and send `key TAB value TAB ms` (or, with
// --without-key, `value TAB ms`) to the output shards. The two Redis commands
// are oracles answered for the `i`-th key received; a TTL is a Go
// `time.Duration`, in nanoseconds.
module GetCmd {
  import opened Wrappers
  import opened Text
  import opened Results
  import opened Workers

  datatype Command = Get(key: string) | PTTL(key: string)

  /** `strconv.FormatInt(int64(ttl / time.Millisecond), 10)`: whole milliseconds, truncated. */
  function MillisField(ttl: int): string
  {
    IntToString(Quot(ttl, NanosPerMilli))
  }

  function GetOutput(key: string, value: string, ttl: int, withoutKey: bool): string
  {
    if withoutKey then value + "\t" + MillisField(ttl) else key + "\t" + value + "\t" + MillisField(ttl)
  }

  /** The loop body of `get` for one key. */
  function GetStep(key: string, i: nat, get: (nat, string) -> Reply<string>,
                   pttl: (nat, string) -> Reply<int>, withoutKey: bool): Step<Command>
  {
    match get(i, key)
    case Err(msg) => Step([msg], [Get(key)], [])
    case Ok(s) =>
      match pttl(i, key)
      case Err(msg) => Step([msg], [Get(key), PTTL(key)], [])
      case Ok(ttl) => Step([], [Get(key), PTTL(key)], [GetOutput(key, s, ttl, withoutKey)])
  }

  function GetRun(keys: seq<string>, get: (nat, string) -> Reply<string>,
                  pttl: (nat, string) -> Reply<int>, withoutKey: bool): Step<Command>
  {
    if keys == [] then NoStep()
    else Then(GetRun(keys[..|keys| - 1], get, pttl, withoutKey),
              GetStep(keys[|keys| - 1], |keys| - 1, get, pttl, withoutKey))
  }

  /**
   * A key yields exactly one output line when both commands succeed and
   * none otherwise; a failing GET skips PTTL; each key records at most one
   * error, the failing command's message.
   */
  lemma GetStepOutcome(key: string, i: nat, get: (nat, string) -> Reply<string>,
                       pttl: (nat, string) -> Reply<int>, withoutKey: bool)
    ensures var s := GetStep(key, i, get, pttl, withoutKey);
      |s.output| <= 1 && |s.errors| <= 1 && |s.errors| + |s.output| == 1 &&
      (s.output != [] <==> get(i, key).Ok? && pttl(i, key).Ok?) &&
      (get(i, key).Err? ==> s.calls == [Get(key)] && s.errors == [get(i, key).msg]) &&
      (get(i, key).Ok? && pttl(i, key).Err? ==> s.errors == [pttl(i, key).msg]) &&
      (get(i, key).Ok? ==> s.calls == [Get(key), PTTL(key)])
  {
  }

  /**
   * With tab-free keys and values, an output line reads back as its fields:
   * key, value and milliseconds, or value and milliseconds.
   */
  lemma GetOutputFields(key: string, value: string, ttl: int, withoutKey: bool)
    requires '\t' !in key && '\t' !in value
    ensures withoutKey ==> Split(GetOutput(key, value, ttl, withoutKey), '\t') == [value, MillisField(ttl)]
    ensures !withoutKey ==> Split(GetOutput(key, value, ttl, withoutKey), '\t') == [key, value, MillisField(ttl)]
  {
    IntToStringNoTab(Quot(ttl, NanosPerMilli));
    if withoutKey {
      SplitTwoFields(value, MillisField(ttl));
    } else {
      SplitThreeFields(key, value, MillisField(ttl));
    }
  }

  /** The printed millisecond count: the TTL divided by a million, rounded toward zero. */
  lemma MillisTruncates(ttl: int)
    ensures var q := Quot(ttl, NanosPerMilli);
      (ttl >= 0 ==> q * NanosPerMilli <= ttl < q * NanosPerMilli + NanosPerMilli) &&
      (ttl < 0 ==> q * NanosPerMilli - NanosPerMilli < ttl <= q * NanosPerMilli)
  {
    if ttl >= 0 {
      QuotNonNegative(ttl, NanosPerMilli);
    } else {
      QuotNegative(ttl, NanosPerMilli);
    }
  }

  method GetLine(result: Result, key: string, i: nat, get: (nat, string) -> Reply<string>,
                 pttl: (nat, string) -> Reply<int>, withoutKey: bool)
    returns (calls: seq<Command>, out: seq<string>)
    modifies result.Errors
    ensures result.Errors.counts == Record(old(result.Errors.counts), GetStep(key, i, get, pttl, withoutKey).errors)
    ensures calls == GetStep(key, i, get, pttl, withoutKey).calls
    ensures out == GetStep(key, i, get, pttl, withoutKey).output
  {
    out := [];
    calls := [Get(key)];
    var s := get(i, key);
    if s.Err? {
      AddError(result, s.msg);
      RecordOne(old(result.Errors.counts), s.msg);
      return;
    }
    calls := calls + [PTTL(key)];
    var ttl := pttl(i, key);
    if ttl.Err? {
      AddError(result, ttl.msg);
      RecordOne(old(result.Errors.counts), ttl.msg);
      return;
    }
    var ms := IntToString(Quot(ttl.value, NanosPerMilli));
    if withoutKey {
      out := [s.value + "\t" + ms];
    } else {
      out := [key + "\t" + s.value + "\t" + ms];
    }
  }

  /** The worker `get`: every key counted, errors tallied in order, `BadCount` zero. */
  method GetWorker(keys: seq<string>, get: (nat, string) -> Reply<string>,
                   pttl: (nat, string) -> Reply<int>, withoutKey: bool)
    returns (result: Result, calls: seq<Command>, out: seq<string>)
    ensures result.Lines == |keys| && result.BadCount == 0
    ensures result.Errors.counts == Tally(GetRun(keys, get, pttl, withoutKey).errors)
    ensures calls == GetRun(keys, get, pttl, withoutKey).calls
    ensures out == GetRun(keys, get, pttl, withoutKey).output
  {
    result := NewResult();
    calls := [];
    out := [];
    var lc := 0;
    while lc < |keys|
      invariant 0 <= lc <= |keys|
      invariant fresh(result.Errors)
      invariant result.Lines == 0 && result.BadCount == 0
      invariant result.Errors.counts == Tally(GetRun(keys[..lc], get, pttl, withoutKey).errors)
      invariant calls == GetRun(keys[..lc], get, pttl, withoutKey).calls
      invariant out == GetRun(keys[..lc], get, pttl, withoutKey).output
    {
      var key := keys[lc];
      ghost var before := GetRun(keys[..lc], get, pttl, withoutKey);
      var moreCalls, moreOut := GetLine(result, key, lc, get, pttl, withoutKey);
      TallyThen(before.errors, GetStep(key, lc, get, pttl, withoutKey).errors);
      calls := calls + moreCalls;
      out := out + moreOut;
      assert keys[..lc + 1][..lc] == keys[..lc];
      lc := lc + 1;
    }
    assert keys[..lc] == keys;
    result := result.(Lines := lc);
  }
}

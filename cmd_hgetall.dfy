// cmd/hgetall/main.go: each input line is a key; HGETALL its hash and send
// the hash's JSON encoding, preceded by `key TAB` unless --without-key is
// given, to the output shards. The Redis command is an oracle answered for the
// `i`-th key received; `encode` is `json.Marshal` of a string map, which
// cannot fail for such a map.
module HgetallCmd {
  import opened Wrappers
  import opened Text
  import opened Results
  import opened Workers

  datatype Command = HGetAll(key: string)

  function HgetallOutput(key: string, json: string, withoutKey: bool): string
  {
    if withoutKey then json else key + "\t" + json
  }

  /** The loop body of `hgetall` for one key. */
  function HgetallStep(key: string, i: nat, hgetall: (nat, string) -> Reply<map<string, string>>,
                       encode: map<string, string> -> string, withoutKey: bool): Step<Command>
  {
    match hgetall(i, key)
    case Err(msg) => Step([msg], [HGetAll(key)], [])
    case Ok(rec) =>
      if |rec| == 0 then Step([KeyMissing], [HGetAll(key)], [])
      else Step([], [HGetAll(key)], [HgetallOutput(key, encode(rec), withoutKey)])
  }

  function HgetallRun(keys: seq<string>, hgetall: (nat, string) -> Reply<map<string, string>>,
                      encode: map<string, string> -> string, withoutKey: bool): Step<Command>
  {
    if keys == [] then NoStep()
    else Then(HgetallRun(keys[..|keys| - 1], hgetall, encode, withoutKey),
              HgetallStep(keys[|keys| - 1], |keys| - 1, hgetall, encode, withoutKey))
  }

  /**
   * A failing command records its message and an empty hash records
   * "Key does not exist", both without output; a non-empty hash yields one
   * line, its JSON alone or after the key and a tab.
   */
  lemma HgetallStepOutcome(key: string, i: nat, hgetall: (nat, string) -> Reply<map<string, string>>,
                           encode: map<string, string> -> string, withoutKey: bool)
    ensures var s := HgetallStep(key, i, hgetall, encode, withoutKey);
      var r := hgetall(i, key);
      s.calls == [HGetAll(key)] && |s.errors| + |s.output| == 1 &&
      (s.output != [] <==> r.Ok? && |r.value| > 0) &&
      (r.Err? ==> s.errors == [r.msg]) &&
      (r.Ok? && |r.value| == 0 ==> s.errors == [KeyMissing]) &&
      (r.Ok? && |r.value| > 0 && withoutKey ==> s.output == [encode(r.value)]) &&
      (r.Ok? && |r.value| > 0 && !withoutKey ==> s.output == [key + "\t" + encode(r.value)])
  {
  }

  /** With a tab-free key, an output line splits at its first tab into the key and the JSON. */
  lemma HgetallOutputFields(key: string, json: string)
    requires '\t' !in key
    ensures SplitN(HgetallOutput(key, json, false), '\t', 2) == [key, json]
  {
    SplitAtTab(key, json);
  }

  method HgetallLine(result: Result, key: string, i: nat, hgetall: (nat, string) -> Reply<map<string, string>>,
                     encode: map<string, string> -> string, withoutKey: bool)
    returns (calls: seq<Command>, out: seq<string>)
    modifies result.Errors
    ensures result.Errors.counts == Record(old(result.Errors.counts), HgetallStep(key, i, hgetall, encode, withoutKey).errors)
    ensures calls == HgetallStep(key, i, hgetall, encode, withoutKey).calls
    ensures out == HgetallStep(key, i, hgetall, encode, withoutKey).output
  {
    out := [];
    calls := [HGetAll(key)];
    var rec := hgetall(i, key);
    if rec.Err? {
      AddError(result, rec.msg);
      RecordOne(old(result.Errors.counts), rec.msg);
      return;
    }
    if |rec.value| == 0 {
      AddError(result, KeyMissing);
      RecordOne(old(result.Errors.counts), KeyMissing);
    } else {
      var s := encode(rec.value);
      if withoutKey {
        out := [s];
      } else {
        out := [key + "\t" + s];
      }
    }
  }

  /** The worker `hgetall`: every key counted, errors tallied in order, `BadCount` zero. */
  method HgetallWorker(keys: seq<string>, hgetall: (nat, string) -> Reply<map<string, string>>,
                       encode: map<string, string> -> string, withoutKey: bool)
    returns (result: Result, calls: seq<Command>, out: seq<string>)
    ensures result.Lines == |keys| && result.BadCount == 0
    ensures result.Errors.counts == Tally(HgetallRun(keys, hgetall, encode, withoutKey).errors)
    ensures calls == HgetallRun(keys, hgetall, encode, withoutKey).calls
    ensures out == HgetallRun(keys, hgetall, encode, withoutKey).output
  {
    result := NewResult();
    calls := [];
    out := [];
    var lc := 0;
    while lc < |keys|
      invariant 0 <= lc <= |keys|
      invariant fresh(result.Errors)
      invariant result.Lines == 0 && result.BadCount == 0
      invariant result.Errors.counts == Tally(HgetallRun(keys[..lc], hgetall, encode, withoutKey).errors)
      invariant calls == HgetallRun(keys[..lc], hgetall, encode, withoutKey).calls
      invariant out == HgetallRun(keys[..lc], hgetall, encode, withoutKey).output
    {
      var key := keys[lc];
      ghost var before := HgetallRun(keys[..lc], hgetall, encode, withoutKey);
      var moreCalls, moreOut := HgetallLine(result, key, lc, hgetall, encode, withoutKey);
      TallyThen(before.errors, HgetallStep(key, lc, hgetall, encode, withoutKey).errors);
      calls := calls + moreCalls;
      out := out + moreOut;
      assert keys[..lc + 1][..lc] == keys[..lc];
      lc := lc + 1;
    }
    assert keys[..lc] == keys;
    result := result.(Lines := lc);
  }
}

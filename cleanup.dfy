// cleanup.go: a list of release functions, run last-registered-first.
// A registered function is modelled by a value of type `F` that names it;
// running the list returns the names in the order the calls happen.
module Cleanup {

  /** `s` back to front. */
  function Reverse<T>(s: seq<T>): (r: seq<T>)
    ensures |r| == |s|
  {
    if s == [] then [] else [s[|s| - 1]] + Reverse(s[..|s| - 1])
  }

  /** The last element appended comes out first, ahead of all the others in reverse. */
  lemma ReverseSnoc<T>(s: seq<T>, x: T)
    ensures Reverse(s + [x]) == [x] + Reverse(s)
  {
    assert (s + [x])[..|s|] == s;
  }

  /** Position `k` of the reversal holds the element `k` places from the end. */
  lemma {:induction false} ReverseIndex<T>(s: seq<T>, k: nat)
    requires k < |s|
    ensures Reverse(s)[k] == s[|s| - 1 - k]
    decreases |s|
  {
    if k > 0 {
      ReverseIndex(s[..|s| - 1], k - 1);
    }
  }

  /** Reversing keeps every element, each exactly as often. */
  lemma {:induction false} ReverseMultiset<T>(s: seq<T>)
    ensures multiset(Reverse(s)) == multiset(s)
    decreases |s|
  {
    if s != [] {
      ReverseMultiset(s[..|s| - 1]);
      assert s == s[..|s| - 1] + [s[|s| - 1]];
    }
  }

  /** Reversing twice gives the list back. */
  lemma {:induction false} ReverseReverse<T>(s: seq<T>)
    ensures Reverse(Reverse(s)) == s
    decreases |s|
  {
    if s != [] {
      var init := s[..|s| - 1];
      ReverseReverse(init);
      ReverseCons(s[|s| - 1], Reverse(init));
      assert s == init + [s[|s| - 1]];
    }
  }

  lemma {:induction false} ReverseCons<T>(x: T, s: seq<T>)
    ensures Reverse([x] + s) == Reverse(s) + [x]
    decreases |s|
  {
    if s == [] {
      assert [x] + s == [x];
    } else {
      var init := s[..|s| - 1];
      assert ([x] + s)[..|s|] == [x] + init;
      ReverseCons(x, init);
      assert Reverse([x] + s) == [s[|s| - 1]] + (Reverse(init) + [x]);
    }
  }

  /** `Cleanups`: the registered functions, oldest first. */
  class Cleanups<F> {
    var funcs: seq<F>

    /** `&Cleanups{}` */
    constructor()
      ensures funcs == []
    {
      funcs := [];
    }

    /** `Add` appends `f` and keeps what was registered before. */
    method Add(f: F)
      modifies this
      ensures funcs == old(funcs) + [f]
    {
      funcs := funcs + [f];
    }

    /**
     * `Do` defers every function in registration order, so on return the
     * deferred calls run last-in first-out. The list itself is left as it was.
     */
    method Do() returns (calls: seq<F>)
      ensures calls == Reverse(funcs)
    {
      var deferred: seq<F> := [];
      var i := 0;
      while i < |funcs|
        invariant 0 <= i <= |funcs|
        invariant deferred == Reverse(funcs[..i])
      {
        ReverseSnoc(funcs[..i], funcs[i]);
        assert funcs[..i + 1] == funcs[..i] + [funcs[i]];
        deferred := [funcs[i]] + deferred;
        i := i + 1;
      }
      assert funcs[..i] == funcs;
      calls := deferred;
    }
  }

  /** Running an empty list calls nothing. */
  method CleanupNone() returns (called: seq<string>)
    ensures called == []
  {
    var cleanups := new Cleanups<string>();
    called := cleanups.Do();
  }

  /** Running a list of one calls it once. */
  method CleanupOne() returns (called: seq<string>)
    ensures called == ["call1"]
  {
    var cleanups := new Cleanups<string>();
    cleanups.Add("call1");
    called := cleanups.Do();
    assert [] + ["call1"] == ["call1"];
  }

  /** Three registrations run newest first. */
  method CleanupThree() returns (called: seq<string>)
    ensures called == ["call3", "call2", "call1"]
  {
    var cleanups := new Cleanups<string>();
    cleanups.Add("call1");
    cleanups.Add("call2");
    cleanups.Add("call3");
    ReverseSnoc(["call1", "call2"], "call3");
    ReverseSnoc(["call1"], "call2");
    ReverseSnoc([], "call1");
    assert [] + ["call1"] == ["call1"];
    assert ["call1"] + ["call2"] == ["call1", "call2"];
    assert ["call1", "call2"] + ["call3"] == ["call1", "call2", "call3"];
    called := cleanups.Do();
  }

  /** `Do` does not empty the list: running it again repeats every call. */
  method CleanupTwice() returns (first: seq<string>, second: seq<string>)
    ensures first == second == ["call2", "call1"]
  {
    var cleanups := new Cleanups<string>();
    cleanups.Add("call1");
    cleanups.Add("call2");
    ReverseSnoc(["call1"], "call2");
    ReverseSnoc([], "call1");
    assert [] + ["call1"] == ["call1"];
    assert ["call1"] + ["call2"] == ["call1", "call2"];
    first := cleanups.Do();
    second := cleanups.Do();
  }
}

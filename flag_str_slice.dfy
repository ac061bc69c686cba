// flag_str_slice.go: a repeatable command-line option collecting its values.
module FlagStrSlice {
  import opened Wrappers
  import opened Text

  class StrSlice {
    var items: seq<string>

    constructor()
      ensures items == []
    {
      items := [];
    }

    /**
     * `Set` appends the value, keeps the earlier ones in order, and never
     * fails; the printed text gains ", " and the value.
     */
    method Set(v: string) returns (err: Outcome)
      modifies this
      ensures items == old(items) + [v]
      ensures String() == if old(items) == [] then v else old(String()) + ", " + v
      ensures err == Pass
    {
      JoinAppend(items, v);
      items := items + [v];
      err := Pass;
    }

    /**
     * `String`: the values joined with ", ". The text opens with the first
     * value and ends with the last one.
     */
    function String(): (r: string)
      reads this
      ensures items == [] ==> r == ""
      ensures items != [] ==> items[0] <= r && EndsWith(r, items[|items| - 1])
    {
      JoinEnds(items, ", ");
      Join(items, ", ")
    }
  }

  predicate EndsWith(s: string, suffix: string)
  {
    |suffix| <= |s| && s[|s| - |suffix|..] == suffix
  }

  /** A join starts with its first part and ends with its last part. */
  lemma {:induction false} JoinEnds(parts: seq<string>, sep: string)
    ensures parts != [] ==> parts[0] <= Join(parts, sep) && EndsWith(Join(parts, sep), parts[|parts| - 1])
    decreases |parts|
  {
    if |parts| > 1 {
      var init := parts[..|parts| - 1];
      JoinEnds(init, sep);
      assert init[0] == parts[0];
      var j := Join(init, sep);
      assert Join(parts, sep) == j + sep + parts[|parts| - 1];
      assert (j + sep + parts[|parts| - 1])[..|parts[0]|] == j[..|parts[0]|];
    }
  }

  /**
   * After `Set(v)`, `String` prints the old text followed by ", " and `v`,
   * or just `v` when no value was set before.
   */
  lemma JoinAppend(items: seq<string>, v: string)
    ensures Join(items + [v], ", ") == if items == [] then v else Join(items, ", ") + ", " + v
  {
    if items != [] {
      assert (items + [v])[..|items|] == items;
    } else {
      assert items + [v] == [v];
    }
  }

  /** No values print as the empty string, and one value prints as itself. */
  lemma {:induction false} JoinShort(items: seq<string>)
    requires |items| <= 1
    ensures Join(items, ", ") == if items == [] then "" else items[0]
  {
    if items != [] {
      assert items[1..] == [];
    }
  }

  /** Two options on the command line print as "a, b". */
  method SetTwice() returns (printed: string)
    ensures printed == "h1, h2"
  {
    var nodes := new StrSlice();
    var e1 := nodes.Set("h1");
    var e2 := nodes.Set("h2");
    var items := nodes.items;
    assert items == ["h1", "h2"];
    assert items[..1] == ["h1"];
    JoinShort(items[..1]);
    assert Join(items, ", ") == "h1" + ", " + "h2";
    printed := nodes.String();
  }
}

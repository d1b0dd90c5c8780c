/** Optional values: the model's stand-in for Kotlin's nullable types (`T?`). */
module Wrappers {

  datatype Option<+T> = None | Some(value: T) {

    /** Kotlin's `?:` — the value, or `default` when absent. */
    function GetOr(default: T): T {
      match this
      case Some(v) => v
      case None => default
    }
  }

  /** The present values, in order: what a loop that skips nulls with `?: continue` collects. */
  function Somes<T>(s: seq<Option<T>>): (r: seq<T>)
    ensures |r| <= |s|
  {
    if s == [] then []
    else Somes(s[..|s| - 1]) + (if s[|s| - 1].Some? then [s[|s| - 1].value] else [])
  }

  lemma SomesAppend<T>(s: seq<Option<T>>, x: Option<T>)
    ensures Somes(s + [x]) == Somes(s) + (if x.Some? then [x.value] else [])
  {
    assert (s + [x])[..|s|] == s;
  }

  /** Every collected value is the value of some entry. */
  lemma {:induction false} SomesFrom<T>(s: seq<Option<T>>, k: nat)
    requires k < |Somes(s)|
    ensures exists i :: 0 <= i < |s| && s[i] == Some(Somes(s)[k])
    decreases |s|
  {
    var init := s[..|s| - 1];
    if k < |Somes(init)| {
      SomesFrom(init, k);
      var i :| 0 <= i < |init| && init[i] == Some(Somes(init)[k]);
      assert s[i] == init[i];
    } else {
      assert s[|s| - 1] == Some(Somes(s)[k]);
    }
  }

  /** When no entry is null, every entry is collected, in place. */
  lemma {:induction false} SomesAll<T>(s: seq<Option<T>>)
    requires forall i :: 0 <= i < |s| ==> s[i].Some?
    ensures |Somes(s)| == |s|
    ensures forall i :: 0 <= i < |s| ==> Somes(s)[i] == s[i].value
    decreases |s|
  {
    if s != [] {
      var init := s[..|s| - 1];
      SomesAll(init);
      assert forall i :: 0 <= i < |init| ==> init[i] == s[i];
    }
  }
}

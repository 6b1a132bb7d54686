/** Sequences taken apart at the end. */
module Seqs {
  function Last<T>(s: seq<T>): T
    requires s != []
  {
    s[|s| - 1]
  }

  function Init<T>(s: seq<T>): seq<T>
    requires s != []
  {
    s[..|s| - 1]
  }

  lemma InitLast<T>(s: seq<T>, t: T)
    ensures Init(s + [t]) == s && Last(s + [t]) == t
  {}

  lemma SameEnds<T>(s: seq<T>, t: seq<T>)
    requires s != [] && t != [] && Init(s) == Init(t) && Last(s) == Last(t)
    ensures s == t
  {
    assert s == Init(s) + [Last(s)] && t == Init(t) + [Last(t)];
  }

  lemma Assoc<T>(a: seq<T>, b: seq<T>, c: seq<T>)
    ensures a + b + c == a + (b + c)
  {}
}

/** The array methods `filter` and `map`, over sequences. */
module Lists {

  /** `s.filter(p)` */
  function Filter<T>(s: seq<T>, p: T -> bool): seq<T> {
    if s == [] then []
    else Filter(s[..|s| - 1], p) + (if p(s[|s| - 1]) then [s[|s| - 1]] else [])
  }

  /** `s.map(f)` */
  function Map<A, B>(s: seq<A>, f: A -> B): seq<B> {
    if s == [] then [] else Map(s[..|s| - 1], f) + [f(s[|s| - 1])]
  }

  lemma {:induction false} MapShape<A, B>(s: seq<A>, f: A -> B)
    ensures |Map(s, f)| == |s|
    ensures forall i :: 0 <= i < |s| ==> Map(s, f)[i] == f(s[i])
  {
    if s != [] {
      MapShape(s[..|s| - 1], f);
    }
  }

  lemma {:induction false} MapAppend<A, B>(s: seq<A>, t: seq<A>, f: A -> B)
    ensures Map(s + t, f) == Map(s, f) + Map(t, f)
  {
    if t == [] {
      assert s + t == s;
    } else {
      MapAppend(s, t[..|t| - 1], f);
      assert (s + t)[..|s + t| - 1] == s + t[..|t| - 1];
    }
  }

  lemma FilterSnoc<T>(t: seq<T>, e: T, p: T -> bool)
    ensures Filter(t + [e], p) == Filter(t, p) + if p(e) then [e] else []
  {
    assert (t + [e])[..|t|] == t;
  }

  lemma {:induction false} FilterMembers<T>(s: seq<T>, p: T -> bool)
    ensures forall x :: x in Filter(s, p) ==> x in s && p(x)
  {
    if s != [] {
      FilterMembers(s[..|s| - 1], p);
    }
  }

  lemma {:induction false} FilterComplete<T>(s: seq<T>, p: T -> bool)
    ensures forall x :: x in s && p(x) ==> x in Filter(s, p)
  {
    if s != [] {
      var init, last := s[..|s| - 1], s[|s| - 1];
      FilterComplete(init, p);
      forall x | x in s && p(x) ensures x in Filter(s, p) {
        if x != last {
          var m :| 0 <= m < |s| && s[m] == x;
          assert init[m] == x;
        }
      }
    }
  }
}

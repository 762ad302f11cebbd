/** Failure-carrying values shared by the modules of this model. */
module Wrappers {

  datatype Option<+T> = None | Some(value: T)

  datatype Result<+T, +E> = Ok(value: T) | Err(error: E)

  /** Puts `x` in front of an optional sequence, keeping `None` as it is. */
  function Prepend<T>(x: T, o: Option<seq<T>>): Option<seq<T>>
  {
    if o.Some? then Some([x] + o.value) else None
  }
}

/** Elementary facts about sequences used as sets. */
module Seqs {

  /** The set of elements of `s`. */
  ghost function Elems<T>(s: seq<T>): set<T>
  {
    set x | x in s
  }

  /** No element occurs twice in `s`. */
  ghost predicate Distinct<T>(s: seq<T>)
  {
    forall i, j :: 0 <= i < j < |s| ==> s[i] != s[j]
  }

  /** A sequence whose multiset equals that of a sequence without repetitions
      has no repetitions either. */
  lemma {:induction false} DistinctByMultiset<T>(s: seq<T>, t: seq<T>)
    requires Distinct(t)
    requires multiset(s) == multiset(t)
    ensures Distinct(s)
  {
    forall i, j | 0 <= i < j < |s| ensures s[i] != s[j] {
      if s[i] == s[j] {
        var x := s[i];
        assert s == s[..j] + [s[j]] + s[j+1..];
        assert x in s[..j];
        assert multiset(s)[x] >= 2 by {
          calc {
            multiset(s)[x];
            multiset(s[..j])[x] + multiset([s[j]])[x] + multiset(s[j+1..])[x];
            >= multiset(s[..j])[x] + 1;
          }
          assert multiset(s[..j])[x] >= 1;
        }
        AtMostOnce(t, x);
        assert false;
      }
    }
  }

  /** Sequences with the same multiset have the same elements. */
  lemma ElemsByMultiset<T>(s: seq<T>, t: seq<T>)
    requires multiset(s) == multiset(t)
    ensures Elems(s) == Elems(t)
  {
    forall x ensures x in Elems(s) <==> x in Elems(t) {
      assert x in s <==> x in multiset(s);
      assert x in t <==> x in multiset(t);
    }
  }

  /** In a sequence without repetitions every element occurs at most once. */
  lemma {:induction false} AtMostOnce<T>(t: seq<T>, x: T)
    requires Distinct(t)
    ensures multiset(t)[x] <= 1
  {
    if t != [] {
      var last := t[|t| - 1];
      var pre := t[..|t| - 1];
      assert t == pre + [last];
      assert Distinct(pre);
      AtMostOnce(pre, x);
      if x == last {
        assert x !in pre;
      }
    }
  }
}

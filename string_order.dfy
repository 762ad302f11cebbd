/** Go's ordering of strings (`slices.Sort`, `sort.Strings`): byte-wise
    lexicographic order of the UTF-8 encodings, which on valid text is the
    lexicographic order of code points. */
module StringOrder {

  import opened Seqs

  predicate Less(a: string, b: string)
  {
    if a == [] then b != []
    else if b == [] then false
    else a[0] < b[0] || (a[0] == b[0] && Less(a[1..], b[1..]))
  }

  lemma {:induction false} LessIrreflexive(a: string)
    ensures !Less(a, a)
  {
    if a != [] {
      LessIrreflexive(a[1..]);
    }
  }

  lemma {:induction false} LessTransitive(a: string, b: string, c: string)
    requires Less(a, b) && Less(b, c)
    ensures Less(a, c)
  {
    if a != [] && b != [] && c != [] && a[0] == b[0] == c[0] {
      LessTransitive(a[1..], b[1..], c[1..]);
    }
  }

  /** Any two different strings are ordered one way or the other. */
  lemma {:induction false} LessTotal(a: string, b: string)
    ensures a == b || Less(a, b) || Less(b, a)
  {
    if a != [] && b != [] && a[0] == b[0] {
      LessTotal(a[1..], b[1..]);
      if a[1..] == b[1..] {
        assert a == [a[0]] + a[1..] && b == [b[0]] + b[1..];
      }
    }
  }

  lemma LessAsymmetric(a: string, b: string)
    requires Less(a, b)
    ensures !Less(b, a)
  {
    if Less(b, a) {
      LessTransitive(a, b, a);
      LessIrreflexive(a);
    }
  }

  /** Every pair of elements is in ascending order (so none repeats). */
  ghost predicate StrictlySorted(s: seq<string>)
  {
    forall i, j :: 0 <= i < j < |s| ==> Less(s[i], s[j])
  }

  /** `m` is the least element of `ks`. */
  ghost predicate IsLeast(m: string, ks: set<string>)
  {
    m in ks && forall x :: x in ks && x != m ==> Less(m, x)
  }

  /** A non-empty finite set of strings has a least element. */
  lemma {:induction false} LeastExists(ks: set<string>)
    requires ks != {}
    ensures exists m :: IsLeast(m, ks)
  {
    var y :| y in ks;
    var rest := ks - {y};
    if rest == {} {
      assert ks == {y};
      assert IsLeast(y, ks);
    } else {
      LeastExists(rest);
      var m :| IsLeast(m, rest);
      LeastOfTwo(ks, y, m);
    }
  }

  /** The least element of `ks` without `y` and `y` itself: the smaller of
      the two is the least element of `ks`. */
  lemma LeastOfTwo(ks: set<string>, y: string, m: string)
    requires y in ks && IsLeast(m, ks - {y})
    ensures IsLeast(y, ks) || IsLeast(m, ks)
  {
    LessTotal(m, y);
    if Less(y, m) {
      forall x | x in ks && x != y ensures Less(y, x) {
        if x != m { LessTransitive(y, m, x); }
      }
    } else {
      forall x | x in ks && x != m ensures Less(m, x) {
        if x != y { assert x in ks - {y}; }
      }
    }
  }

  /** The elements of `ks` in ascending order: the order in which `exportify`
      writes the keys of its map. */
  ghost function SortedKeys(ks: set<string>): (r: seq<string>)
    ensures StrictlySorted(r)
    ensures Elems(r) == ks
    ensures |r| == |ks|
    decreases ks
  {
    if ks == {} then []
    else
      LeastExists(ks);
      var m :| IsLeast(m, ks);
      var rest := SortedKeys(ks - {m});
      SortedCons(m, rest, ks);
      [m] + rest
  }

  /** Putting the least element in front of the others, sorted. */
  lemma SortedCons(m: string, rest: seq<string>, ks: set<string>)
    requires IsLeast(m, ks)
    requires StrictlySorted(rest) && Elems(rest) == ks - {m} && |rest| == |ks - {m}|
    ensures StrictlySorted([m] + rest) && Elems([m] + rest) == ks && |[m] + rest| == |ks|
  {
    var s := [m] + rest;
    forall i, j | 0 <= i < j < |s| ensures Less(s[i], s[j]) {
      if i == 0 {
        assert rest[j - 1] in Elems(rest);
      } else {
        assert s[i] == rest[i - 1];
      }
    }
    ElemsCons(m, rest);
  }

  lemma ElemsCons(m: string, rest: seq<string>)
    ensures Elems([m] + rest) == {m} + Elems(rest)
  {
    assert forall x :: x in [m] + rest <==> x == m || x in rest;
  }

  /** A strictly sorted sequence is determined by its set of elements. */
  lemma {:induction false} SortedUnique(s: seq<string>, ks: set<string>)
    requires StrictlySorted(s) && Elems(s) == ks
    ensures s == SortedKeys(ks)
    decreases |s|
  {
    var t := SortedKeys(ks);
    if s != [] {
      assert t != [] by { assert s[0] in Elems(t); }
      // both heads are the least element of ks
      assert s[0] == t[0] by {
        if s[0] != t[0] {
          assert t[0] in Elems(s);
          assert s[0] in Elems(t);
          var i :| 0 <= i < |s| && s[i] == t[0];
          var j :| 0 <= j < |t| && t[j] == s[0];
          assert Less(s[0], t[0]);
          assert Less(t[0], s[0]);
          LessAsymmetric(s[0], t[0]);
        }
      }
      var m := s[0];
      assert m !in s[1..] by {
        if m in s[1..] {
          var i :| 0 <= i < |s[1..]| && s[1..][i] == m;
          assert Less(s[0], s[i + 1]);
          LessIrreflexive(m);
        }
      }
      assert Elems(s[1..]) == ks - {m} by {
        assert s == [m] + s[1..];
      }
      SortedUnique(s[1..], ks - {m});
      assert m !in t[1..];
      assert t == [m] + t[1..];
      assert Elems(t[1..]) == ks - {m};
      SortedUnique(t[1..], ks - {m});
    }
  }
}

/** `searchGlobs` (internal/patchpkg/search.go): the paths matched by a list
    of glob patterns, each path at most once, for as long as the consumer
    asks for more.

    `filepath.Glob` is an oracle from a pattern to its matches, `None` when the
    pattern is malformed. The consumer (the `yield` function of a Go range
    loop) is a function from the paths yielded so far, the newest last, to
    whether it wants another one. */
module SearchGlobs {

  import opened Wrappers
  import opened Seqs

  /** The matches in `ms`, in order, that are not in `seen` and not an earlier
      match of `ms` again. */
  ghost function Fresh(ms: seq<string>, seen: set<string>): seq<string>
  {
    if ms == [] then []
    else
      var pre := Fresh(ms[..|ms| - 1], seen);
      if ms[|ms| - 1] in seen || ms[|ms| - 1] in pre then pre else pre + [ms[|ms| - 1]]
  }

  /** What one pattern's glob contributes: nothing on a syntax error. */
  ghost function Contribution(matches: Option<seq<string>>, seen: set<string>): seq<string>
  {
    if matches.None? then [] else Fresh(matches.value, seen)
  }

  /** Every path the patterns produce when the consumer never stops: each
      pattern's fresh matches in pattern order, a path seen before (in `seen`
      or from an earlier pattern) left out. */
  ghost function Expand(patterns: seq<string>, glob: string -> Option<seq<string>>, seen: set<string>): seq<string>
  {
    if patterns == [] then []
    else
      var pre := Expand(patterns[..|patterns| - 1], glob, seen);
      pre + Contribution(glob(patterns[|patterns| - 1]), seen + Elems(pre))
  }

  /** searchGlobs's returned sequence, with its `seen` map: the map is made
      once, when the sequence is made, and every iteration shares it. */
  class PathSeq {

    const patterns: seq<string>
    var seen: set<string>

    constructor(patterns: seq<string>)
      ensures this.patterns == patterns && seen == {}
    {
      this.patterns := patterns;
      seen := {};
    }

    /** One iteration of the sequence. `yielded` is what is handed to the
        consumer, in order; `globbed` counts the patterns passed to `glob`.
        The paths yielded are a prefix of the expansion; the consumer asked
        to go on after every one but the last; the iteration ends early only
        because the consumer said stop, and then right after the path it
        said it on, with no later pattern globbed. */
    method Iterate(glob: string -> Option<seq<string>>, keepGoing: seq<string> -> bool)
      returns (yielded: seq<string>, ghost globbed: nat)
      modifies this
      ensures yielded <= Expand(patterns, glob, old(seen))
      ensures forall k :: 1 <= k < |yielded| ==> keepGoing(yielded[..k])
      ensures |yielded| < |Expand(patterns, glob, old(seen))| ==> yielded != [] && !keepGoing(yielded)
      ensures forall x :: x in seen <==> x in old(seen) || x in yielded
      ensures globbed <= |patterns|
      ensures globbed < |patterns| ==>
        && 0 < globbed
        && |Expand(patterns[..globbed - 1], glob, old(seen))| < |yielded|
        && !keepGoing(yielded)
      ensures yielded != [] && !keepGoing(yielded) ==>
        && 0 < globbed
        && |Expand(patterns[..globbed - 1], glob, old(seen))| < |yielded|
        && yielded <= Expand(patterns[..globbed], glob, old(seen))
      ensures (yielded == [] || keepGoing(yielded)) ==> globbed == |patterns|
    {
      ghost var seen0 := seen;
      yielded := [];
      globbed := 0;
      for pi := 0 to |patterns|
        invariant yielded == Expand(patterns[..pi], glob, seen0)
        invariant forall x :: x in seen <==> x in seen0 || x in yielded
        invariant KeptGoing(keepGoing, yielded)
        invariant globbed == pi
      {
        var matches := glob(patterns[pi]);
        globbed := globbed + 1;
        assert patterns[..pi + 1] == patterns[..pi] + [patterns[pi]];
        ExpandSnoc(patterns[..pi], patterns[pi], glob, seen0);
        if matches.None? {
          continue;
        }
        SeenIs(seen, seen0, yielded);
        var stopped;
        ghost var added;
        yielded, stopped, added := YieldFresh(matches.value, keepGoing, yielded);
        if stopped {
          assert yielded <= Expand(patterns[..pi + 1], glob, seen0);
          ExpandPrefix(patterns, pi + 1, |patterns|, glob, seen0);
          assert patterns[..|patterns|] == patterns;
          KeptGoingPrefix(keepGoing, yielded);
          return;
        }
      }
      assert patterns[..|patterns|] == patterns;
      assert yielded[..|yielded|] == yielded;
    }

    /** The inner loop of searchGlobs over one pattern's matches `ms`, after
        `before` has been yielded: each match not yet seen is marked seen and
        yielded, until the consumer says stop. */
    method YieldFresh(ms: seq<string>, keepGoing: seq<string> -> bool, before: seq<string>)
      returns (yielded: seq<string>, stopped: bool, ghost added: seq<string>)
      requires KeptGoing(keepGoing, before)
      modifies this
      ensures yielded == before + added
      ensures added <= Fresh(ms, old(seen))
      ensures forall x :: x in seen <==> x in old(seen) || x in added
      ensures !stopped ==> added == Fresh(ms, old(seen)) && KeptGoing(keepGoing, yielded)
      ensures stopped ==> added != [] && KeptGoing(keepGoing, yielded[..|yielded| - 1]) && !keepGoing(yielded)
    {
      ghost var seen0 := seen;
      added := [];
      yielded := before;
      stopped := false;
      for mi := 0 to |ms|
        invariant added == Fresh(ms[..mi], seen0)
        invariant yielded == before + added
        invariant forall x :: x in seen <==> x in seen0 || x in added
        invariant KeptGoing(keepGoing, yielded)
      {
        var m := ms[mi];
        FreshStep(ms, mi, seen0);
        if m in seen {
          continue;
        }
        seen := seen + {m};
        ghost var prev := yielded;
        added := added + [m];
        yielded := yielded + [m];
        if !keepGoing(yielded) {
          FreshPrefixOfAll(ms, mi + 1, seen0);
          assert yielded[..|yielded| - 1] == prev;
          return yielded, true, added;
        }
        KeptGoingSnoc(keepGoing, prev, m);
      }
      assert ms[..|ms|] == ms;
    }
  }

  /** The consumer asked for more after each of the paths in `y`. */
  ghost predicate KeptGoing(keepGoing: seq<string> -> bool, y: seq<string>)
  {
    forall k :: 1 <= k <= |y| ==> keepGoing(y[..k])
  }

  /** Asking for more after one more path. */
  lemma KeptGoingSnoc(keepGoing: seq<string> -> bool, y: seq<string>, m: string)
    requires KeptGoing(keepGoing, y) && keepGoing(y + [m])
    ensures KeptGoing(keepGoing, y + [m])
  {
    assert forall k :: 1 <= k <= |y| ==> (y + [m])[..k] == y[..k];
    assert (y + [m])[..|y| + 1] == y + [m];
  }

  /** What is seen, as a set. */
  lemma SeenIs(seen: set<string>, seen0: set<string>, yielded: seq<string>)
    requires forall x :: x in seen <==> x in seen0 || x in yielded
    ensures seen == seen0 + Elems(yielded)
  {
  }

  /** The consumer asked for more after every path but the last. */
  lemma KeptGoingPrefix(keepGoing: seq<string> -> bool, y: seq<string>)
    requires y != [] && KeptGoing(keepGoing, y[..|y| - 1])
    ensures forall k :: 1 <= k < |y| ==> keepGoing(y[..k])
  {
    assert forall k :: 1 <= k < |y| ==> y[..|y| - 1][..k] == y[..k];
  }

  /** Taking one more match. */
  lemma FreshStep(ms: seq<string>, i: nat, seen: set<string>)
    requires i < |ms|
    ensures Fresh(ms[..i + 1], seen) ==
      if ms[i] in seen || ms[i] in Fresh(ms[..i], seen) then Fresh(ms[..i], seen)
      else Fresh(ms[..i], seen) + [ms[i]]
  {
    assert ms[..i + 1][..i] == ms[..i];
  }

  /** Fewer matches give a prefix of the fresh matches. */
  lemma {:induction false} FreshPrefix(ms: seq<string>, i: nat, j: nat, seen: set<string>)
    requires i <= j <= |ms|
    ensures Fresh(ms[..i], seen) <= Fresh(ms[..j], seen)
    decreases j - i
  {
    if i < j {
      FreshPrefix(ms, i, j - 1, seen);
      assert ms[..j][..j - 1] == ms[..j - 1];
    }
  }

  /** The fresh matches among the first `i` are a prefix of all of them. */
  lemma FreshPrefixOfAll(ms: seq<string>, i: nat, seen: set<string>)
    requires i <= |ms|
    ensures Fresh(ms[..i], seen) <= Fresh(ms, seen)
  {
    FreshPrefix(ms, i, |ms|, seen);
    assert ms[..|ms|] == ms;
  }

  /** Fewer patterns give a prefix of the expansion. */
  lemma {:induction false} ExpandPrefix(patterns: seq<string>, i: nat, j: nat, glob: string -> Option<seq<string>>, seen: set<string>)
    requires i <= j <= |patterns|
    ensures Expand(patterns[..i], glob, seen) <= Expand(patterns[..j], glob, seen)
    decreases j - i
  {
    if i < j {
      ExpandPrefix(patterns, i, j - 1, glob, seen);
      assert patterns[..j][..j - 1] == patterns[..j - 1];
    }
  }

  /** The fresh matches are the matches outside `seen`, each once. */
  lemma {:induction false} FreshElems(ms: seq<string>, seen: set<string>)
    ensures Distinct(Fresh(ms, seen))
    ensures forall x :: x in Fresh(ms, seen) <==> x in ms && x !in seen
  {
    if ms != [] {
      var init := ms[..|ms| - 1];
      FreshElems(init, seen);
      assert ms == init + [ms[|ms| - 1]];
    }
  }

  /** The expansion never repeats a path and never yields a path in `seen`;
      a path is in it exactly when some well-formed pattern globs to it. */
  lemma {:induction false} ExpandElems(patterns: seq<string>, glob: string -> Option<seq<string>>, seen: set<string>)
    ensures Distinct(Expand(patterns, glob, seen))
    ensures forall x :: x in Expand(patterns, glob, seen) <==>
      x !in seen && exists i :: 0 <= i < |patterns| && glob(patterns[i]).Some? && x in glob(patterns[i]).value
  {
    if patterns != [] {
      var n := |patterns| - 1;
      var init := patterns[..n];
      var pre := Expand(init, glob, seen);
      ExpandElems(init, glob, seen);
      var more := Contribution(glob(patterns[n]), seen + Elems(pre));
      if glob(patterns[n]).Some? {
        FreshElems(glob(patterns[n]).value, seen + Elems(pre));
      }
      forall x
        ensures x in pre + more <==>
          x !in seen && exists i :: 0 <= i < |patterns| && glob(patterns[i]).Some? && x in glob(patterns[i]).value
      {
        if x !in seen && x !in pre {
          if exists i :: 0 <= i < |patterns| && glob(patterns[i]).Some? && x in glob(patterns[i]).value {
            var i :| 0 <= i < |patterns| && glob(patterns[i]).Some? && x in glob(patterns[i]).value;
            if i < n {
              assert patterns[i] == init[i];
            }
          }
        }
        if x in pre {
          var i :| 0 <= i < n && glob(init[i]).Some? && x in glob(init[i]).value;
          assert patterns[i] == init[i];
        }
      }
      forall a, b | 0 <= a < b < |pre + more| ensures (pre + more)[a] != (pre + more)[b] {
        if b >= |pre| && a < |pre| {
          assert (pre + more)[a] in pre;
          assert (pre + more)[b] in more;
        }
      }
    }
  }

  /** A pattern with a syntax error adds nothing and does not end the
      expansion: the patterns after it expand as if it were absent. */
  lemma {:induction false} ExpandSkipsBadPattern(before: seq<string>, bad: string, after: seq<string>,
                                                  glob: string -> Option<seq<string>>, seen: set<string>)
    requires glob(bad).None?
    ensures Expand(before + [bad] + after, glob, seen) == Expand(before + after, glob, seen)
    decreases |after|
  {
    if after == [] {
      ExpandSnoc(before, bad, glob, seen);
      assert before + [bad] + after == before + [bad];
      assert before + after == before;
    } else {
      var rest, last := after[..|after| - 1], after[|after| - 1];
      assert after == rest + [last];
      assert before + [bad] + after == (before + [bad] + rest) + [last];
      assert before + after == (before + rest) + [last];
      ExpandSkipsBadPattern(before, bad, rest, glob, seen);
      ExpandSnoc(before + [bad] + rest, last, glob, seen);
      ExpandSnoc(before + rest, last, glob, seen);
    }
  }

  /** Expanding one more pattern at the end. */
  lemma ExpandSnoc(patterns: seq<string>, p: string, glob: string -> Option<seq<string>>, seen: set<string>)
    ensures Expand(patterns + [p], glob, seen) ==
      Expand(patterns, glob, seen) + Contribution(glob(p), seen + Elems(Expand(patterns, glob, seen)))
  {
    assert (patterns + [p])[..|patterns|] == patterns;
  }

  /** A second iteration of the same sequence yields nothing the first one
      yielded: it starts from the `seen` the first one left. */
  lemma NoRepeatAcrossIterations(first: seq<string>, patterns: seq<string>, glob: string -> Option<seq<string>>,
                                  seen: set<string>, seenAfter: set<string>)
    requires forall x :: x in seenAfter <==> x in seen || x in first
    ensures forall x :: x in Expand(patterns, glob, seenAfter) ==> x !in first && x !in seen
  {
    ExpandElems(patterns, glob, seenAfter);
  }

  /** What one iteration yields (a prefix of the expansion, by `Iterate`)
      holds no path twice and no path seen before the iteration began. */
  lemma IterationYieldsOnce(yielded: seq<string>, patterns: seq<string>, glob: string -> Option<seq<string>>,
                            seen: set<string>)
    requires yielded <= Expand(patterns, glob, seen)
    ensures Distinct(yielded)
    ensures forall x :: x in yielded ==> x !in seen
  {
    ExpandElems(patterns, glob, seen);
    var e := Expand(patterns, glob, seen);
    forall x | x in yielded ensures x !in seen {
      var i :| 0 <= i < |yielded| && yielded[i] == x;
      assert e[i] == x;
    }
  }
}

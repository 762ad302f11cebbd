/** Bytes, as Go's `[]byte` and byte strings hold them. */
module Bytes {

  newtype Byte = b: int | 0 <= b < 256
}

/** Match locations as `regexp.FindAllIndex` reports them. */
module Matching {

  /** The half-open byte range `[start, end)` of one match. */
  datatype Loc = Loc(start: nat, end: nat)

  /** What `FindAllIndex` promises about its result on an input of length `n`:
      every range lies inside the input, the ranges do not overlap and their
      starts strictly increase. */
  predicate WellFormedLocs(locs: seq<Loc>, n: nat)
  {
    && (forall i :: 0 <= i < |locs| ==> locs[i].start <= locs[i].end <= n)
    && (forall i, j :: 0 <= i < j < |locs| ==> locs[i].end <= locs[j].start && locs[i].start < locs[j].start)
  }
}

/** `reRemovedRefs` (internal/patchpkg/search.go): a Nix store path whose
    hash was overwritten with `e`s, written out as a leftmost, greedy,
    non-overlapping matcher for `e{32}-[^$"'{}/[\] \t\r\n]+`.

    The matcher works on bytes. Every byte the character class excludes is
    ASCII, so a byte of a multi-byte UTF-8 sequence, or of an invalid one that
    the regexp engine reads as U+FFFD, is always part of a rune the class
    accepts; matching rune by rune and byte by byte give the same ranges. */
module RemovedRefs {

  import opened Bytes
  import opened Matching

  /** The number of `e`s that replace the hash. */
  const HashLength: nat := 32

  const LowerE: Byte := 0x65
  const Hyphen: Byte := 0x2D

  /** The bytes outside `$ " ' { } / [ ] space \t \r \n`. */
  predicate NameByte(b: Byte)
  {
    b !in {0x24, 0x22, 0x27, 0x7B, 0x7D, 0x2F, 0x5B, 0x5D, 0x20, 0x09, 0x0D, 0x0A}
  }

  /** The pattern can start at `p`: 32 `e`s, a hyphen and one name byte. */
  predicate MatchAt(s: seq<Byte>, p: nat)
  {
    && p + HashLength + 2 <= |s|
    && (forall i :: p <= i < p + HashLength ==> s[i] == LowerE)
    && s[p + HashLength] == Hyphen
    && NameByte(s[p + HashLength + 1])
  }

  /** Where the run of name bytes starting at `i` ends. */
  function RunEnd(s: seq<Byte>, i: nat): (e: nat)
    requires i <= |s|
    ensures i <= e <= |s|
    ensures forall j :: i <= j < e ==> NameByte(s[j])
    ensures e == |s| || !NameByte(s[e])
    decreases |s| - i
  {
    if i < |s| && NameByte(s[i]) then RunEnd(s, i + 1) else i
  }

  /** `loc` is a whole match: the pattern starts at `loc.start` and the run of
      name bytes is taken as far as it goes. */
  predicate IsMatch(s: seq<Byte>, loc: Loc)
  {
    MatchAt(s, loc.start) && loc.end == RunEnd(s, loc.start + HashLength + 1)
  }

  /** `FindAllIndex(s[from..], -1)`, with positions counted in `s`: scan for
      the leftmost start, take the longest match there, go on from its end. */
  function FindAll(s: seq<Byte>, from: nat): (locs: seq<Loc>)
    requires from <= |s|
    decreases |s| - from
  {
    if from + HashLength + 2 > |s| then []
    else if MatchAt(s, from) then
      var e := RunEnd(s, from + HashLength + 1);
      [Loc(from, e)] + FindAll(s, e)
    else FindAll(s, from + 1)
  }

  /** `reRemovedRefs.FindAllIndex(s, -1)`. */
  function FindAllIndex(s: seq<Byte>): (locs: seq<Loc>)
  {
    FindAll(s, 0)
  }

  /** `reRemovedRefs.FindString(s)`: the leftmost match, or the empty string. */
  function FindString(s: seq<Byte>): (m: seq<Byte>)
  {
    var locs := FindAllIndex(s);
    if locs == [] then [] else
      FindAllOrdered(s, 0);
      s[locs[0].start..locs[0].end]
  }

  /** Every range found is a whole match that starts at or after `from`. */
  lemma {:induction false} FindAllMatches(s: seq<Byte>, from: nat)
    requires from <= |s|
    ensures forall i :: 0 <= i < |FindAll(s, from)| ==>
      from <= FindAll(s, from)[i].start && IsMatch(s, FindAll(s, from)[i])
    decreases |s| - from
  {
    if from + HashLength + 2 > |s| {
    } else if MatchAt(s, from) {
      var e := RunEnd(s, from + HashLength + 1);
      FindAllMatches(s, e);
      assert FindAll(s, from) == [Loc(from, e)] + FindAll(s, e);
    } else {
      FindAllMatches(s, from + 1);
    }
  }

  /** The ranges found are well formed. */
  lemma {:induction false} FindAllOrdered(s: seq<Byte>, from: nat)
    requires from <= |s|
    ensures WellFormedLocs(FindAll(s, from), |s|)
    ensures forall i :: 0 <= i < |FindAll(s, from)| ==> from <= FindAll(s, from)[i].start
    decreases |s| - from
  {
    var locs := FindAll(s, from);
    if from + HashLength + 2 > |s| {
    } else if MatchAt(s, from) {
      var e := RunEnd(s, from + HashLength + 1);
      FindAllOrdered(s, e);
      var rest := FindAll(s, e);
      assert locs == [Loc(from, e)] + rest;
      forall i, j | 0 <= i < j < |locs|
        ensures locs[i].end <= locs[j].start && locs[i].start < locs[j].start
      {
        assert locs[j] == rest[j - 1];
        if i > 0 {
          assert locs[i] == rest[i - 1];
        }
      }
    } else {
      FindAllOrdered(s, from + 1);
    }
  }

  /** `FindAllIndex` keeps the promise of the regexp package. */
  lemma FindAllIndexWellFormed(s: seq<Byte>)
    ensures WellFormedLocs(FindAllIndex(s), |s|)
    ensures forall i :: 0 <= i < |FindAllIndex(s)| ==> IsMatch(s, FindAllIndex(s)[i])
  {
    FindAllMatches(s, 0);
    FindAllOrdered(s, 0);
  }

  /** No start is missed: every position at or after `from` where the pattern
      can start lies inside one of the ranges found. With the ranges in order
      and disjoint, this makes each range the leftmost match after the one
      before it. */
  lemma {:induction false} FindAllCovers(s: seq<Byte>, from: nat, p: nat)
    requires from <= p <= |s|
    requires MatchAt(s, p)
    ensures exists i :: 0 <= i < |FindAll(s, from)| && FindAll(s, from)[i].start <= p < FindAll(s, from)[i].end
    decreases |s| - from
  {
    var locs := FindAll(s, from);
    if MatchAt(s, from) {
      var e := RunEnd(s, from + HashLength + 1);
      assert locs == [Loc(from, e)] + FindAll(s, e);
      if p < e {
        assert locs[0].start <= p < locs[0].end;
      } else {
        FindAllCovers(s, e, p);
        var i :| 0 <= i < |FindAll(s, e)| && FindAll(s, e)[i].start <= p < FindAll(s, e)[i].end;
        assert locs[i + 1] == FindAll(s, e)[i];
      }
    } else {
      FindAllCovers(s, from + 1, p);
    }
  }

  /** Between two consecutive ranges, and before the first, the pattern
      cannot start anywhere. */
  lemma FindAllLeftmost(s: seq<Byte>, i: nat, p: nat)
    requires i < |FindAllIndex(s)|
    requires (if i == 0 then 0 else FindAllIndex(s)[i - 1].end) <= p < FindAllIndex(s)[i].start
    ensures !MatchAt(s, p)
  {
    var locs := FindAllIndex(s);
    FindAllOrdered(s, 0);
    if MatchAt(s, p) {
      FindAllCovers(s, 0, p);
    }
  }

  /** Thirty-one `e`s before the hyphen are not enough: no match starts at `p`
      if the hyphen comes one byte early. */
  lemma ThirtyOneNotEnough(s: seq<Byte>, p: nat)
    requires p + HashLength <= |s| && s[p + HashLength - 1] == Hyphen
    ensures forall i :: 0 <= i < |FindAllIndex(s)| ==> FindAllIndex(s)[i].start != p
  {
    FindAllMatches(s, 0);
  }

  /** `FindString` is empty exactly when the pattern starts nowhere, and is
      otherwise the bytes of the leftmost match. */
  lemma FindStringLeftmost(s: seq<Byte>)
    ensures FindString(s) == [] <==> forall p :: 0 <= p <= |s| ==> !MatchAt(s, p)
    ensures FindString(s) != [] ==>
      exists p :: && 0 <= p <= |s| && MatchAt(s, p)
                  && FindString(s) == s[p..RunEnd(s, p + HashLength + 1)]
                  && forall q :: 0 <= q < p ==> !MatchAt(s, q)
  {
    var locs := FindAllIndex(s);
    FindAllMatches(s, 0);
    if locs == [] {
      forall p | 0 <= p <= |s| ensures !MatchAt(s, p) {
        if MatchAt(s, p) {
          FindAllCovers(s, 0, p);
        }
      }
    } else {
      var p := locs[0].start;
      assert IsMatch(s, locs[0]);
      forall q | 0 <= q < p ensures !MatchAt(s, q) {
        FindAllLeftmost(s, 0, q);
      }
    }
  }
}

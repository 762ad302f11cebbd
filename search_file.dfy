/** `searchFile` (internal/patchpkg/search.go): the matches of a regular
    expression in the first gigabyte of a file, as slices of that file. */
module SearchFile {

  import opened Wrappers
  import opened Bytes
  import opened Matching
  import RemovedRefs

  /** maxFileSize: at most 1 GiB of a file is loaded. */
  const MaxFileSize: nat := 0x4000_0000

  /** What opening and reading the file gives. */
  datatype FileAccess = OpenFailed | ReadFailed | Readable(content: seq<Byte>)

  datatype SearchError = OpenError | ReadError

  /** fileSlice: the bytes of one match and where they start in the file. */
  datatype FileSlice = FileSlice(path: string, data: seq<Byte>, offset: int)

  /** What an `io.LimitedReader` with `N: maxFileSize` lets `io.ReadAll` see:
      the first `MaxFileSize` bytes of the content. */
  function Loaded(content: seq<Byte>): (data: seq<Byte>)
    ensures |data| <= MaxFileSize
    ensures data <= content
    ensures |content| >= MaxFileSize ==> |data| == MaxFileSize
    ensures |content| <= MaxFileSize ==> data == content
  {
    if |content| <= MaxFileSize then content else content[..MaxFileSize]
  }

  /** A matcher that behaves as `regexp.FindAllIndex` promises on every input. */
  ghost predicate Sound(findAll: seq<Byte> -> seq<Loc>)
  {
    forall d :: WellFormedLocs(findAll(d), |d|)
  }

  /** searchFile: an open failure or a read failure is returned as an error;
      otherwise one slice per match of `findAll` in the loaded bytes, in the
      order the matches are reported, with the file's path, the match's bytes
      and the match's start as offset. No match gives no slices and no error. */
  method SearchFile(file: FileAccess, path: string, findAll: seq<Byte> -> seq<Loc>)
    returns (r: Result<seq<FileSlice>, SearchError>)
    requires Sound(findAll)
    ensures file.OpenFailed? ==> r == Err(OpenError)
    ensures file.ReadFailed? ==> r == Err(ReadError)
    ensures file.Readable? ==> r.Ok?
    ensures file.Readable? ==>
      var data := Loaded(file.content);
      var locs := findAll(data);
      && |r.value| == |locs|
      && forall i :: 0 <= i < |locs| ==>
           && r.value[i].path == path
           && r.value[i].offset == locs[i].start
           && r.value[i].data == data[locs[i].start..locs[i].end]
    ensures r.Ok? ==> forall i :: 0 <= i < |r.value| ==>
      0 <= r.value[i].offset && r.value[i].offset + |r.value[i].data| <= MaxFileSize
    ensures r.Ok? ==> forall i, j :: 0 <= i < j < |r.value| ==>
      r.value[i].offset + |r.value[i].data| <= r.value[j].offset
  {
    match file
    case OpenFailed =>
      return Err(OpenError);
    case ReadFailed =>
      return Err(ReadError);
    case Readable(content) =>
      var data := Loaded(content);
      var locs := findAll(data);
      if |locs| == 0 {
        return Ok([]);
      }
      var matches := SlicesOf(path, data, locs);
      SlicesInOrder(path, data, locs, matches);
      return Ok(matches);
  }

  /** The loop of searchFile that fills `matches`: the slice of `data` at
      each location, tagged with `path` and the location's start. */
  method SlicesOf(path: string, data: seq<Byte>, locs: seq<Loc>) returns (matches: seq<FileSlice>)
    requires WellFormedLocs(locs, |data|)
    ensures |matches| == |locs|
    ensures forall i :: 0 <= i < |locs| ==>
      matches[i] == FileSlice(path, data[locs[i].start..locs[i].end], locs[i].start)
  {
    var a := new FileSlice[|locs|](_ => FileSlice([], [], 0));
    for i := 0 to |locs|
      invariant forall k :: 0 <= k < i ==>
        a[k] == FileSlice(path, data[locs[k].start..locs[k].end], locs[k].start)
    {
      var start, end := locs[i].start, locs[i].end;
      a[i] := FileSlice(path, data[start..end], start);
    }
    matches := a[..];
  }

  /** Slices cut at well-formed locations lie inside the data and follow one
      another without overlapping. */
  lemma SlicesInOrder(path: string, data: seq<Byte>, locs: seq<Loc>, matches: seq<FileSlice>)
    requires WellFormedLocs(locs, |data|)
    requires |matches| == |locs|
    requires forall i :: 0 <= i < |locs| ==>
      matches[i] == FileSlice(path, data[locs[i].start..locs[i].end], locs[i].start)
    ensures forall i :: 0 <= i < |matches| ==>
      0 <= matches[i].offset && matches[i].offset + |matches[i].data| <= |data|
    ensures forall i, j :: 0 <= i < j < |matches| ==>
      matches[i].offset + |matches[i].data| <= matches[j].offset
  {
    forall i, j | 0 <= i < j < |matches|
      ensures matches[i].offset + |matches[i].data| <= matches[j].offset
    {
      assert matches[i].offset + |matches[i].data| == locs[i].end;
    }
  }

  /** The reRemovedRefs matcher can be handed to `SearchFile`. */
  lemma RemovedRefsSound()
    ensures Sound(RemovedRefs.FindAllIndex)
  {
    forall d ensures WellFormedLocs(RemovedRefs.FindAllIndex(d), |d|) {
      RemovedRefs.FindAllIndexWellFormed(d);
    }
  }

  /** With reRemovedRefs, every slice found is a removed store path: 32 `e`s,
      a hyphen and a name, taken as far as the name goes. */
  lemma RemovedRefsSlices(content: seq<Byte>, i: nat)
    requires i < |RemovedRefs.FindAllIndex(Loaded(content))|
    ensures
      var data := Loaded(content);
      var loc := RemovedRefs.FindAllIndex(data)[i];
      && RemovedRefs.MatchAt(data, loc.start)
      && loc.end == RemovedRefs.RunEnd(data, loc.start + RemovedRefs.HashLength + 1)
  {
    RemovedRefs.FindAllIndexWellFormed(Loaded(content));
  }
}

/** `envValues` and `searchEnv` (internal/patchpkg/search.go): the first match
    of a regular expression among the values of the process environment. */
module SearchEnv {

  import opened Bytes

  const Equals: Byte := 0x3D

  /** `strings.Cut(s, "=")`: the text before and after the first `=`, and
      whether there was one. */
  function Cut(s: seq<Byte>): (r: (seq<Byte>, seq<Byte>, bool))
    ensures r.2 ==> s == r.0 + [Equals] + r.1 && Equals !in r.0
    ensures !r.2 ==> r.0 == s && r.1 == [] && Equals !in s
  {
    if s == [] then (s, [], false)
    else if s[0] == Equals then ([], s[1..], true)
    else
      var (before, after, found) := Cut(s[1..]);
      assert s == [s[0]] + s[1..];
      ([s[0]] + before, after, found)
  }

  /** The value of an environment entry: what follows the first `=`, or the
      empty string when there is none. */
  function ValueOf(entry: seq<Byte>): (v: seq<Byte>)
  {
    Cut(entry).1
  }

  /** The value of `name=value` is `value` whenever the name holds no `=`,
      whatever the value holds. */
  lemma ValueOfEntry(name: seq<Byte>, value: seq<Byte>)
    requires Equals !in name
    ensures ValueOf(name + [Equals] + value) == value
  {
    var s := name + [Equals] + value;
    var (before, after, found) := Cut(s);
    assert Equals in s by { assert s[|name|] == Equals; }
    NoEqualsPrefix(name, before, value, after);
  }

  /** Two splits of one sequence at an `=` that no prefix holds are the same split. */
  lemma {:induction false} NoEqualsPrefix(a: seq<Byte>, b: seq<Byte>, x: seq<Byte>, y: seq<Byte>)
    requires Equals !in a && Equals !in b
    requires a + [Equals] + x == b + [Equals] + y
    ensures a == b && x == y
  {
    assert |a| == |b| by {
      var s := a + [Equals] + x;
      assert s[|a|] == Equals && s[|b|] == Equals;
    }
    assert a == (a + [Equals] + x)[..|a|];
    assert b == (b + [Equals] + y)[..|b|];
    assert x == (a + [Equals] + x)[|a| + 1..];
    assert y == (b + [Equals] + y)[|b| + 1..];
  }

  /** envValues: one value per environment entry, in the same order. */
  method EnvValues(env: seq<seq<Byte>>) returns (values: seq<seq<Byte>>)
    ensures |values| == |env|
    ensures forall i :: 0 <= i < |env| ==> values[i] == ValueOf(env[i])
  {
    var a := new seq<Byte>[|env|];
    for i := 0 to |env|
      invariant forall k :: 0 <= k < i ==> a[k] == ValueOf(env[k])
    {
      var (_, v, _) := Cut(env[i]);
      a[i] := v;
    }
    values := a[..];
  }

  /** searchEnv: the match of `find` in the first environment value where it
      is not empty, or the empty string when there is no such value. Names
      are never searched. */
  method SearchEnv(env: seq<seq<Byte>>, find: seq<Byte> -> seq<Byte>) returns (m: seq<Byte>)
    ensures m == [] <==> forall i :: 0 <= i < |env| ==> find(ValueOf(env[i])) == []
    ensures m != [] ==> exists i :: && 0 <= i < |env|
                                    && m == find(ValueOf(env[i]))
                                    && forall j :: 0 <= j < i ==> find(ValueOf(env[j])) == []
  {
    var values := EnvValues(env);
    for i := 0 to |values|
      invariant forall j :: 0 <= j < i ==> find(values[j]) == []
    {
      var found := find(values[i]);
      if found != [] {
        return found;
      }
    }
    return [];
  }
}

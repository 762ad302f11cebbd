/** internal/devbox/envvars.go: serialising an environment as shell export
    statements, and the `__DEVBOX_SET_` marker-key convention for maps of
    environment variables. */
module EnvVars {

  import opened Seqs
  import opened StringOrder
  import opened Escaping
  import opened GoStrings
  import opened ShellQuoting

  /** devboxSetPrefix */
  const DevboxSetPrefix: string := "__DEVBOX_SET_"

  /** The key that records that devbox set `k`. */
  function MarkerOf(k: string): (r: string)
    ensures IsMarker(r) && r[|DevboxSetPrefix|..] == k
  {
    DevboxSetPrefix + k
  }

  predicate IsMarker(k: string)
  {
    DevboxSetPrefix <= k
  }

  /** A marker key is the marker of exactly one key: what follows the prefix. */
  lemma MarkerOfUnique(k: string, x: string)
    requires IsMarker(x)
    ensures x == MarkerOf(k) <==> x[|DevboxSetPrefix|..] == k
  {
    if x[|DevboxSetPrefix|..] == k {
      assert x == x[..|DevboxSetPrefix|] + x[|DevboxSetPrefix|..];
    }
  }

  /** A Go `map[string]string`: a reference whose holders update it in place. */
  class EnvMap {
    var vars: map<string, string>

    constructor (vars: map<string, string>)
      ensures this.vars == vars
    {
      this.vars := vars;
    }
  }

  /* ---------------------------------------------------------------------- */
  /* exportify and exportifyElvish                                          */

  /** The characters exportifyElvish escapes. */
  const ElvishSpecial: set<char> := {'"'}

  /** One line of exportify's output, without its newline. */
  function ExportLine(k: string, v: string): string
  {
    "export " + k + "=\"" + Escape(v, ShellSpecial) + "\";"
  }

  /** One line of exportifyElvish's output, without its newline. */
  function ElvishLine(k: string, v: string): string
  {
    "set-env " + k + " \"" + Escape(v, ElvishSpecial) + "\""
  }

  /** The lines `line` renders for `keys`, one per key, in the order of `keys`. */
  function LinesOf(keys: seq<string>, vars: map<string, string>, line: (string, string) -> string): (r: seq<string>)
    requires forall i :: 0 <= i < |keys| ==> keys[i] in vars
    ensures |r| == |keys|
    ensures forall i :: 0 <= i < |keys| ==> r[i] == line(keys[i], vars[keys[i]])
  {
    if keys == [] then []
    else LinesOf(keys[..|keys| - 1], vars, line) + [line(keys[|keys| - 1], vars[keys[|keys| - 1]])]
  }

  /** Collects the keys of `vars` in some order and sorts them in place; the
      result is the keys in ascending order whatever order they were collected
      in, because no key occurs twice. */
  method SortKeys(vars: map<string, string>) returns (keys: seq<string>)
    ensures keys == SortedKeys(vars.Keys)
    ensures forall j :: 0 <= j < |keys| ==> keys[j] in vars
    ensures vars == map[] ==> keys == []
  {
    var a := CollectKeys(vars);
    ghost var collected := a[..];
    InsertionSort(a);
    keys := a[..];
    DistinctByMultiset(keys, collected);
    ElemsByMultiset(keys, collected);
    AscendingIsStrict(keys);
    SortedUnique(keys, vars.Keys);
    assert forall j :: 0 <= j < |keys| ==> keys[j] in Elems(keys);
  }

  /** Fills a fresh array with the keys of `vars`, one per slot, in the order
      the map hands them out. */
  method CollectKeys(vars: map<string, string>) returns (a: array<string>)
    ensures fresh(a)
    ensures Distinct(a[..]) && Elems(a[..]) == vars.Keys
  {
    a := new string[|vars|];
    var i := 0;
    var rest := vars.Keys;
    ghost var got: seq<string> := [];
    while rest != {}
      invariant i + |rest| == a.Length
      invariant got == a[..i]
      invariant rest <= vars.Keys
      invariant forall x :: x in got <==> x in vars.Keys && x !in rest
      invariant Distinct(got)
      decreases rest
    {
      var k :| k in rest;
      a[i] := k;
      got := got + [k];
      i := i + 1;
      rest := rest - {k};
    }
    assert a[..i] == a[..];
    assert Elems(got) == vars.Keys;
  }

  /** Sorts `a` in place by Go's string order, moving each element down by
      adjacent swaps. */
  method InsertionSort(a: array<string>)
    modifies a
    ensures forall k :: 0 < k < a.Length ==> !Less(a[k], a[k - 1])
    ensures multiset(a[..]) == old(multiset(a[..]))
  {
    for i := 0 to a.Length
      invariant forall k :: 0 < k < i ==> !Less(a[k], a[k - 1])
      invariant multiset(a[..]) == old(multiset(a[..]))
    {
      InsertDown(a, i);
    }
  }

  /** Moves `a[i]` down into the ascending prefix `a[..i]`. */
  method InsertDown(a: array<string>, i: nat)
    requires i < a.Length
    requires forall k :: 0 < k < i ==> !Less(a[k], a[k - 1])
    modifies a
    ensures forall k :: 0 < k <= i ==> !Less(a[k], a[k - 1])
    ensures multiset(a[..]) == old(multiset(a[..]))
  {
    var j := i;
    while j > 0 && Less(a[j], a[j - 1])
      invariant 0 <= j <= i
      invariant forall k :: 0 < k <= i && k != j ==> !Less(a[k], a[k - 1])
      invariant 0 < j < i ==> !Less(a[j + 1], a[j - 1])
      invariant multiset(a[..]) == old(multiset(a[..]))
    {
      LessAsymmetric(a[j], a[j - 1]);
      Swap(a, j - 1, j);
      j := j - 1;
    }
  }

  /** Exchanges two elements of `a`. */
  method Swap(a: array<string>, i: nat, j: nat)
    requires i < j < a.Length
    modifies a
    ensures a[i] == old(a[j]) && a[j] == old(a[i])
    ensures forall k :: 0 <= k < a.Length && k != i && k != j ==> a[k] == old(a[k])
    ensures multiset(a[..]) == old(multiset(a[..]))
  {
    a[i], a[j] := a[j], a[i];
  }

  /** An ascending sequence without repetitions is strictly sorted. */
  lemma AscendingIsStrict(s: seq<string>)
    requires Distinct(s)
    requires forall k :: 0 < k < |s| ==> !Less(s[k], s[k - 1])
    ensures StrictlySorted(s)
  {
    forall i, j | 0 <= i < j < |s| ensures Less(s[i], s[j]) {
      AscendingChain(s, i, j);
    }
  }

  lemma {:induction false} AscendingChain(s: seq<string>, i: nat, j: nat)
    requires Distinct(s)
    requires forall k :: 0 < k < |s| ==> !Less(s[k], s[k - 1])
    requires i < j < |s|
    ensures Less(s[i], s[j])
    decreases j - i
  {
    LessTotal(s[j - 1], s[j]);
    if i < j - 1 {
      AscendingChain(s, i, j - 1);
      LessTransitive(s[i], s[j - 1], s[j]);
    }
  }

  /** exportify: one `export k="v";` line per key of `vars`, keys ascending,
      the value escaped for double quotes, lines joined by newlines with no
      trailing newline; the empty map gives the empty string. */
  method Exportify(vars: map<string, string>) returns (r: string)
    ensures r == JoinLines(LinesOf(SortedKeys(vars.Keys), vars, ExportLine))
    ensures vars == map[] ==> r == ""
  {
    var keys := SortKeys(vars);
    var b := WriteExportLines(keys, vars);
    r := TrimSpace(b);
    ExportTrim(keys, vars);
    assert vars == map[] ==> LinesOf(keys, vars, ExportLine) == [];
  }

  /** The builder loop of exportify: for each key, `export `, the key, `="`,
      the escaped value and `";` and a newline. */
  method WriteExportLines(keys: seq<string>, vars: map<string, string>) returns (b: string)
    requires forall j :: 0 <= j < |keys| ==> keys[j] in vars
    ensures b == Terminated(LinesOf(keys, vars, ExportLine))
  {
    b := "";
    for i := 0 to |keys|
      invariant b == Terminated(LinesOf(keys[..i], vars, ExportLine))
    {
      ghost var before := b;
      var k := keys[i];
      b := b + "export " + k + "=\"";
      b := AppendEscaped(b, vars[k], ShellSpecial);
      b := b + "\";\n";
      ExportStep(keys, i, vars, before);
    }
    assert keys[..|keys|] == keys;
  }

  /** exportifyElvish: one `set-env k "v"` line per key of `vars`, keys
      ascending, only `"` escaped in the value, lines joined by newlines with
      no trailing newline; the empty map gives the empty string. */
  method ExportifyElvish(vars: map<string, string>) returns (r: string)
    ensures r == JoinLines(LinesOf(SortedKeys(vars.Keys), vars, ElvishLine))
    ensures vars == map[] ==> r == ""
  {
    var keys := SortKeys(vars);
    var buf := WriteElvishLines(keys, vars);
    r := TrimSpace(buf);
    ElvishTrim(keys, vars);
    assert vars == map[] ==> LinesOf(keys, vars, ElvishLine) == [];
  }

  /** The buffer loop of exportifyElvish: for each key, `set-env `, the key,
      ` "`, the value with `"` escaped, `"` and a newline. */
  method WriteElvishLines(keys: seq<string>, vars: map<string, string>) returns (buf: string)
    requires forall j :: 0 <= j < |keys| ==> keys[j] in vars
    ensures buf == Terminated(LinesOf(keys, vars, ElvishLine))
  {
    buf := "";
    for i := 0 to |keys|
      invariant buf == Terminated(LinesOf(keys[..i], vars, ElvishLine))
    {
      ghost var before := buf;
      var k := keys[i];
      buf := buf + "set-env " + k + " \"";
      buf := AppendEscaped(buf, vars[k], ElvishSpecial);
      buf := buf + "\"\n";
      ElvishStep(keys, i, vars, before);
    }
    assert keys[..|keys|] == keys;
  }

  /** One iteration of exportify's loop writes the line of `keys[i]`. */
  lemma ExportStep(keys: seq<string>, i: nat, vars: map<string, string>, before: string)
    requires i < |keys|
    requires forall j :: 0 <= j < |keys| ==> keys[j] in vars
    requires before == Terminated(LinesOf(keys[..i], vars, ExportLine))
    ensures before + "export " + keys[i] + "=\"" + Escape(vars[keys[i]], ShellSpecial) + "\";\n"
         == Terminated(LinesOf(keys[..i + 1], vars, ExportLine))
  {
    var k, v := keys[i], vars[keys[i]];
    assert before + "export " + k + "=\"" + Escape(v, ShellSpecial) + "\";\n" == before + ExportLine(k, v) + "\n";
    NextLine(keys, i, vars, ExportLine, before + ExportLine(k, v) + "\n");
  }

  /** One iteration of exportifyElvish's loop writes the line of `keys[i]`. */
  lemma ElvishStep(keys: seq<string>, i: nat, vars: map<string, string>, before: string)
    requires i < |keys|
    requires forall j :: 0 <= j < |keys| ==> keys[j] in vars
    requires before == Terminated(LinesOf(keys[..i], vars, ElvishLine))
    ensures before + "set-env " + keys[i] + " \"" + Escape(vars[keys[i]], ElvishSpecial) + "\"\n"
         == Terminated(LinesOf(keys[..i + 1], vars, ElvishLine))
  {
    var k, v := keys[i], vars[keys[i]];
    assert before + "set-env " + k + " \"" + Escape(v, ElvishSpecial) + "\"\n" == before + ElvishLine(k, v) + "\n";
    NextLine(keys, i, vars, ElvishLine, before + ElvishLine(k, v) + "\n");
  }

  /** Trimming exportify's buffer removes only its final newline. */
  lemma ExportTrim(keys: seq<string>, vars: map<string, string>)
    requires forall j :: 0 <= j < |keys| ==> keys[j] in vars
    ensures TrimSpace(Terminated(LinesOf(keys, vars, ExportLine))) == JoinLines(LinesOf(keys, vars, ExportLine))
  {
    var lines := LinesOf(keys, vars, ExportLine);
    forall i | 0 <= i < |lines| ensures |lines[i]| >= 2 && lines[i][0] == 'e' && lines[i][|lines[i]| - 1] == ';' {
      ExportLineEnds(keys[i], vars[keys[i]]);
    }
    TrimTerminated(lines);
  }

  /** Trimming exportifyElvish's buffer removes only its final newline. */
  lemma ElvishTrim(keys: seq<string>, vars: map<string, string>)
    requires forall j :: 0 <= j < |keys| ==> keys[j] in vars
    ensures TrimSpace(Terminated(LinesOf(keys, vars, ElvishLine))) == JoinLines(LinesOf(keys, vars, ElvishLine))
  {
    var lines := LinesOf(keys, vars, ElvishLine);
    forall i | 0 <= i < |lines| ensures |lines[i]| >= 2 && lines[i][0] == 's' && lines[i][|lines[i]| - 1] == '"' {
      ElvishLineEnds(keys[i], vars[keys[i]]);
    }
    TrimTerminated(lines);
  }

  lemma ExportLineEnds(k: string, v: string)
    ensures |ExportLine(k, v)| >= 2 && ExportLine(k, v)[0] == 'e' && ExportLine(k, v)[|ExportLine(k, v)| - 1] == ';'
  {
  }

  lemma ElvishLineEnds(k: string, v: string)
    ensures |ElvishLine(k, v)| >= 2 && ElvishLine(k, v)[0] == 's' && ElvishLine(k, v)[|ElvishLine(k, v)| - 1] == '"'
  {
  }

  /** Writing the line of `keys[i]` after the lines of `keys[..i]` gives the
      lines of `keys[..i + 1]`. */
  lemma NextLine(keys: seq<string>, i: nat, vars: map<string, string>, line: (string, string) -> string, b: string)
    requires i < |keys|
    requires forall j :: 0 <= j < |keys| ==> keys[j] in vars
    requires b == Terminated(LinesOf(keys[..i], vars, line)) + line(keys[i], vars[keys[i]]) + "\n"
    ensures b == Terminated(LinesOf(keys[..i + 1], vars, line))
  {
    assert keys[..i + 1][..i] == keys[..i];
  }

  /* ---------------------------------------------------------------------- */
  /* addEnvIfNotPreviouslySetByDevbox and markEnvsAsSetByDevbox             */

  /** `existing` after taking each entry of `incoming` whose key has no marker
      in `existing`. */
  function Merged(existing: map<string, string>, incoming: map<string, string>): (r: map<string, string>)
    ensures forall k :: k in incoming && MarkerOf(k) !in existing ==> k in r && r[k] == incoming[k]
    ensures forall k :: k in incoming && MarkerOf(k) in existing ==>
      (k in r <==> k in existing) && (k in existing ==> r[k] == existing[k])
    ensures forall k :: k !in incoming ==> (k in r <==> k in existing) && (k in existing ==> r[k] == existing[k])
  {
    existing + map k | k in incoming && MarkerOf(k) !in existing :: incoming[k]
  }

  /** Merging adds no marker key of its own: every marker key of the result
      was already in `existing`, with its value. */
  lemma MergedAddsNoMarker(existing: map<string, string>, incoming: map<string, string>)
    requires forall k :: k in incoming ==> !IsMarker(k)
    ensures forall k :: k in Merged(existing, incoming) && IsMarker(k) ==>
      k in existing && Merged(existing, incoming)[k] == existing[k]
  {
  }

  /** addEnvIfNotPreviouslySetByDevbox: copies each entry of `incoming` into
      `existing` unless `existing` holds the marker key of that entry's key.
      No key of `incoming` is itself a marker, so the outcome does not depend
      on the order in which the keys are visited. The two may be the same
      map: each key is then written back with its own value. */
  method AddEnvIfNotPreviouslySetByDevbox(existing: EnvMap, incoming: EnvMap)
    requires forall k :: k in incoming.vars ==> !IsMarker(k)
    modifies existing
    ensures existing.vars == Merged(old(existing.vars), old(incoming.vars))
  {
    ghost var before := existing.vars;
    var source := incoming.vars;
    var pending := source.Keys;
    while pending != {}
      invariant pending <= source.Keys
      invariant forall k :: IsMarker(k) ==> (k in existing.vars <==> k in before)
      invariant forall k :: k in existing.vars <==> k in before || (Taken(before, source, k) && k !in pending)
      invariant forall k :: k in existing.vars ==>
        existing.vars[k] == if Taken(before, source, k) && k !in pending then source[k] else before[k]
      decreases pending
    {
      var k :| k in pending;
      if MarkerOf(k) !in existing.vars {
        existing.vars := existing.vars[k := source[k]];
      }
      pending := pending - {k};
    }
    MergedPointwise(before, source, existing.vars);
  }

  /** Adding a map to itself changes nothing. */
  lemma MergedWithItself(m: map<string, string>)
    ensures Merged(m, m) == m
  {
  }

  /** Whether merging `incoming` into `existing` takes the entry of `k`. */
  predicate Taken(existing: map<string, string>, incoming: map<string, string>, k: string)
  {
    k in incoming && MarkerOf(k) !in existing
  }

  /** A map that agrees with the merge key by key is the merge. */
  lemma MergedPointwise(existing: map<string, string>, incoming: map<string, string>, m: map<string, string>)
    requires forall k :: k in m <==> k in existing || Taken(existing, incoming, k)
    requires forall k :: k in m ==> m[k] == if Taken(existing, incoming, k) then incoming[k] else existing[k]
    ensures m == Merged(existing, incoming)
  {
    var r := Merged(existing, incoming);
    assert m.Keys == r.Keys;
    forall k | k in m ensures m[k] == r[k] {
      if Taken(existing, incoming, k) {
        assert k in incoming && MarkerOf(k) !in existing;
      }
    }
  }

  /** `m` with the marker of each of its keys set to "1". */
  function Marked(m: map<string, string>): map<string, string>
  {
    m + map k | k in m :: MarkerOf(k) := "1"
  }

  /** Marking keeps every key and sets the marker of each to "1". */
  lemma MarkedSetsMarkers(m: map<string, string>)
    ensures m.Keys <= Marked(m).Keys
    ensures forall k :: k in m ==> MarkerOf(k) in Marked(m) && Marked(m)[MarkerOf(k)] == "1"
  {
  }

  /** Marking, key by key: a key is in the result when it was in `m` or is
      the marker of a key of `m`; the markers hold "1" and every other key
      keeps its value. So an original value changes only when its key is
      itself the marker of another original key. */
  lemma MarkedAt(m: map<string, string>, x: string)
    ensures x in Marked(m) <==> x in m || (IsMarker(x) && x[|DevboxSetPrefix|..] in m)
    ensures x in Marked(m) ==>
      Marked(m)[x] == if IsMarker(x) && x[|DevboxSetPrefix|..] in m then "1" else m[x]
  {
    var markers := map j | j in m :: MarkerOf(j) := "1";
    assert Marked(m) == m + markers;
    if IsMarker(x) {
      MarkerOfUnique(x[|DevboxSetPrefix|..], x);
      if x[|DevboxSetPrefix|..] in m {
        assert x in markers;
      }
    }
    if x in markers {
      var j :| j in m && MarkerOf(j) == x;
    }
  }

  /** `cur` is `m` with the markers of the keys in `done` set to "1". */
  ghost predicate MarkedSoFar(m: map<string, string>, done: set<string>, cur: map<string, string>)
  {
    && m.Keys <= cur.Keys
    && (forall j {:trigger MarkerOf(j)} :: j in done ==> MarkerOf(j) in cur)
    && (forall x {:trigger cur[x]} :: x in cur ==>
          && (x in m || (IsMarker(x) && x[|DevboxSetPrefix|..] in done))
          && cur[x] == if IsMarker(x) && x[|DevboxSetPrefix|..] in done then "1" else m[x])
  }

  /** Setting the marker of one more key keeps `MarkedSoFar`. */
  lemma MarkStep(m: map<string, string>, done: set<string>, cur: map<string, string>, key: string)
    requires MarkedSoFar(m, done, cur)
    ensures MarkedSoFar(m, done + {key}, cur[MarkerOf(key) := "1"])
  {
    var next := cur[MarkerOf(key) := "1"];
    forall x | x in next
      ensures x in m || (IsMarker(x) && x[|DevboxSetPrefix|..] in done + {key})
      ensures next[x] == if IsMarker(x) && x[|DevboxSetPrefix|..] in done + {key} then "1" else m[x]
    {
      if IsMarker(x) {
        MarkerOfUnique(key, x);
      }
    }
  }

  /** A map that agrees with the marking key by key is the marking. */
  lemma MarkedPointwise(m: map<string, string>, r: map<string, string>)
    requires MarkedSoFar(m, m.Keys, r)
    ensures r == Marked(m)
  {
    var t := Marked(m);
    forall x ensures (x in r <==> x in t) && (x in r ==> r[x] == t[x]) {
      MarkedAgreeAt(m, r, x);
    }
  }

  /** One key of `MarkedPointwise`. */
  lemma MarkedAgreeAt(m: map<string, string>, r: map<string, string>, x: string)
    requires MarkedSoFar(m, m.Keys, r)
    ensures x in r <==> x in Marked(m)
    ensures x in r ==> r[x] == Marked(m)[x]
  {
    MarkedAt(m, x);
    if IsMarker(x) && x[|DevboxSetPrefix|..] in m {
      MarkerOfUnique(x[|DevboxSetPrefix|..], x);
    }
    if x in r {
      assert r[x] == if IsMarker(x) && x[|DevboxSetPrefix|..] in m then "1" else m[x];
    }
  }

  /** markEnvsAsSetByDevbox: in each map, sets the marker of every key the map
      held when it was reached to "1". */
  method MarkEnvsAsSetByDevbox(envs: seq<EnvMap>)
    requires forall i, j :: 0 <= i < j < |envs| ==> envs[i] != envs[j]
    modifies envs
    ensures forall i :: 0 <= i < |envs| ==> envs[i].vars == Marked(old(envs[i].vars))
  {
    for n := 0 to |envs|
      invariant forall i :: 0 <= i < n ==> envs[i].vars == Marked(old(envs[i].vars))
      invariant forall i :: n <= i < |envs| ==> envs[i].vars == old(envs[i].vars)
    {
      MarkEnv(envs[n]);
    }
  }

  /** The inner loop of markEnvsAsSetByDevbox, over the keys of one map. */
  method MarkEnv(env: EnvMap)
    modifies env
    ensures env.vars == Marked(old(env.vars))
  {
    ghost var before := env.vars;
    ghost var done: set<string> := {};
    var pending := env.vars.Keys;
    while pending != {}
      invariant done + pending == before.Keys
      invariant MarkedSoFar(before, done, env.vars)
      decreases pending
    {
      var key :| key in pending;
      MarkStep(before, done, env.vars, key);
      env.vars := env.vars[MarkerOf(key) := "1"];
      done := done + {key};
      pending := pending - {key};
    }
    assert done == before.Keys;
    MarkedPointwise(before, env.vars);
  }
}

/** `globEscape` (internal/patchpkg/search.go): turns a string into a glob
    pattern that matches that string literally. */
module GlobEscape {

  import opened Wrappers
  import opened Escaping

  /** The characters with a special meaning in a `filepath.Glob` pattern. */
  const GlobMeta: set<char> := {'*', '?', '\\', '['}

  /** `strings.ContainsAny(s, chars)`. */
  predicate ContainsAny(s: string, chars: set<char>)
  {
    exists i | 0 <= i < |s| :: s[i] in chars
  }

  /** The single name a glob pattern matches when it holds no wildcard, as
      `filepath.Match` reads it on Unix: `\c` stands for `c`; `*`, `?` and `[`
      are wildcards, and a trailing lone backslash is a syntax error. Both give
      `None`. */
  function LiteralOf(p: string): (o: Option<string>)
  {
    if p == [] then Some([])
    else if p[0] == '\\' then
      (if |p| == 1 then None else Prepend(p[1], LiteralOf(p[2..])))
    else if p[0] in {'*', '?', '['} then None
    else Prepend(p[0], LiteralOf(p[1..]))
  }

  /** The escaped pattern holds no wildcard and stands for exactly `s`. */
  lemma {:induction false} LiteralOfEscape(s: string)
    ensures LiteralOf(Escape(s, GlobMeta)) == Some(s)
  {
    if s != [] {
      var rest := Escape(s[1..], GlobMeta);
      LiteralOfEscape(s[1..]);
      assert [s[0]] + s[1..] == s;
      if s[0] in GlobMeta {
        assert Escape(s, GlobMeta) == ['\\', s[0]] + rest;
        assert (['\\', s[0]] + rest)[2..] == rest;
      } else {
        assert Escape(s, GlobMeta) == [s[0]] + rest;
        assert ([s[0]] + rest)[1..] == rest;
      }
    }
  }

  /** globEscape: the fast path returns `s` itself when it holds no
      metacharacter; otherwise each character is copied, preceded by a
      backslash when it is a metacharacter. Both paths give the same text. */
  method GlobEscape(s: string) returns (r: string)
    ensures r == Escape(s, GlobMeta)
    ensures LiteralOf(r) == Some(s)
    ensures |r| == |s| + CountIn(s, GlobMeta)
    ensures !ContainsAny(s, GlobMeta) ==> r == s
    ensures DropEscapes(r) == Some(s)
  {
    if !ContainsAny(s, GlobMeta) {
      EscapeIdentity(s, GlobMeta);
      r := s;
    } else {
      r := AppendEscaped([], s, GlobMeta);
    }
    LiteralOfEscape(s);
    EscapeLength(s, GlobMeta);
    DropEscapesRoundTrip(s, GlobMeta);
  }
}

/** Backslash escaping: the one transformation behind `globEscape`,
    `exportify` and `exportifyElvish`. Each character of a chosen set is
    preceded by a single backslash; every other character is copied
    unchanged, in order. */
module Escaping {

  import opened Wrappers

  /** The escape character itself. */
  const Backslash: char := '\\'

  /** The text that stands for `c` after escaping. */
  function EscapeChar(c: char, special: set<char>): string
  {
    if c in special then [Backslash, c] else [c]
  }

  /** `s` with a backslash in front of every character that is in `special`. */
  function Escape(s: string, special: set<char>): (r: string)
  {
    if s == [] then [] else EscapeChar(s[0], special) + Escape(s[1..], special)
  }

  /** How many characters of `s` are in `special`. */
  function CountIn(s: string, special: set<char>): nat
  {
    if s == [] then 0 else (if s[0] in special then 1 else 0) + CountIn(s[1..], special)
  }

  /** Reads escaped text back: a backslash is dropped and the character after
      it is kept; `None` when the text ends in a lone backslash. */
  function DropEscapes(r: string): (o: Option<string>)
  {
    if r == [] then Some([])
    else if r[0] == Backslash then
      (if |r| == 1 then None else Prepend(r[1], DropEscapes(r[2..])))
    else Prepend(r[0], DropEscapes(r[1..]))
  }

  /** Escaping distributes over concatenation, so it can be done one
      character at a time. */
  lemma {:induction false} EscapeAppend(a: string, b: string, special: set<char>)
    ensures Escape(a + b, special) == Escape(a, special) + Escape(b, special)
  {
    if a == [] {
      assert a + b == b;
    } else {
      assert (a + b)[0] == a[0] && (a + b)[1..] == a[1..] + b;
      EscapeAppend(a[1..], b, special);
    }
  }

  /** Escaping one more character appends that character's escape. */
  lemma EscapeSnoc(s: string, c: char, special: set<char>)
    ensures Escape(s + [c], special) == Escape(s, special) + EscapeChar(c, special)
  {
    EscapeAppend(s, [c], special);
    assert Escape([c], special) == EscapeChar(c, special) + Escape([], special);
  }

  /** Appends the escape of `v` to the buffer `b`, one character at a time,
      as the loops of globEscape, exportify and exportifyElvish do. */
  method AppendEscaped(b: string, v: string, special: set<char>) returns (r: string)
    ensures r == b + Escape(v, special)
  {
    r := b;
    for j := 0 to |v|
      invariant r == b + Escape(v[..j], special)
    {
      var c := v[j];
      if c in special {
        r := r + [Backslash];
      }
      r := r + [c];
      assert v[..j + 1] == v[..j] + [c];
      EscapeSnoc(v[..j], c, special);
    }
    assert v[..|v|] == v;
  }

  /** The escaped text is exactly one character longer per special character. */
  lemma {:induction false} EscapeLength(s: string, special: set<char>)
    ensures |Escape(s, special)| == |s| + CountIn(s, special)
  {
    if s != [] {
      EscapeLength(s[1..], special);
    }
  }

  /** A text without special characters is its own escape. */
  lemma {:induction false} EscapeIdentity(s: string, special: set<char>)
    requires forall i :: 0 <= i < |s| ==> s[i] !in special
    ensures Escape(s, special) == s
  {
    if s != [] {
      EscapeIdentity(s[1..], special);
    }
  }

  /** Conversely, escaping changes every text that has a special character. */
  lemma {:induction false} EscapeChanges(s: string, special: set<char>)
    requires exists i :: 0 <= i < |s| && s[i] in special
    ensures Escape(s, special) != s
  {
    EscapeLength(s, special);
    var i :| 0 <= i < |s| && s[i] in special;
    CountPositive(s, special, i);
  }

  lemma {:induction false} CountPositive(s: string, special: set<char>, i: nat)
    requires i < |s| && s[i] in special
    ensures CountIn(s, special) > 0
  {
    if i > 0 {
      CountPositive(s[1..], special, i - 1);
    }
  }

  /** Dropping the escaping backslashes gives the original text back, provided
      a backslash in the text is itself escaped (or there is none). */
  lemma {:induction false} DropEscapesRoundTrip(s: string, special: set<char>)
    requires Backslash in special || Backslash !in s
    ensures DropEscapes(Escape(s, special)) == Some(s)
  {
    if s != [] {
      var rest := Escape(s[1..], special);
      assert Backslash !in special ==> Backslash !in s[1..];
      DropEscapesRoundTrip(s[1..], special);
      if s[0] in special {
        assert Escape(s, special) == [Backslash, s[0]] + rest;
        assert (([Backslash, s[0]] + rest)[2..]) == rest;
        assert [s[0]] + s[1..] == s;
      } else {
        assert Escape(s, special) == [s[0]] + rest;
        assert s[0] != Backslash;
        assert (([s[0]] + rest)[1..]) == rest;
        assert [s[0]] + s[1..] == s;
      }
    }
  }

  /** Every special character of the escaped text is preceded by a backslash
      that belongs to the escape: reading the escaped text two characters at a
      time at escapes, no special character stands alone. */
  predicate AllEscaped(r: string, special: set<char>)
  {
    if r == [] then true
    else if r[0] == Backslash then |r| >= 2 && r[1] in special && AllEscaped(r[2..], special)
    else r[0] !in special && AllEscaped(r[1..], special)
  }

  lemma {:induction false} EscapeAllEscaped(s: string, special: set<char>)
    requires Backslash in special
    ensures AllEscaped(Escape(s, special), special)
  {
    if s != [] {
      var rest := Escape(s[1..], special);
      EscapeAllEscaped(s[1..], special);
      if s[0] in special {
        assert ([Backslash, s[0]] + rest)[2..] == rest;
      } else {
        assert ([s[0]] + rest)[1..] == rest;
      }
    }
  }
}

/** How a POSIX shell reads the text between double quotes (IEEE Std 1003.1,
    Shell Command Language, section 2.2.3 "Double-Quotes", with the line
    continuation of section 2.2.1), used to state what `exportify`'s escaping
    achieves. */
module ShellQuoting {

  import opened Wrappers
  import opened Escaping

  /** The characters `exportify` escapes inside a double-quoted value. */
  const ShellSpecial: set<char> := {'$', '`', '"', '\\', '\n'}

  /** The characters that keep a special meaning inside double quotes and must
      be escaped to be read literally; a newline is not one of them. */
  const QuoteSpecial: set<char> := {'$', '`', '"', '\\'}

  /** The value a shell gives to `"body"` when `body` triggers no expansion:
      a backslash before `$`, backquote, `"` or backslash is dropped and the
      character kept; a backslash before a newline removes both (line
      continuation); a backslash before anything else stays. An unescaped `$`
      or backquote would start an expansion and an unescaped `"` would end the
      quoted text early; a final lone backslash would escape the closing quote.
      Those give `None`: the text is not read back literally. */
  function ReadDoubleQuoted(body: string): (o: Option<string>)
  {
    if body == [] then Some([])
    else if body[0] == '\\' then
      if |body| == 1 then None
      else if body[1] == '\n' then ReadDoubleQuoted(body[2..])
      else if body[1] in QuoteSpecial then Prepend(body[1], ReadDoubleQuoted(body[2..]))
      else Prepend('\\', ReadDoubleQuoted(body[1..]))
    else if body[0] in {'$', '`', '"'} then None
    else Prepend(body[0], ReadDoubleQuoted(body[1..]))
  }

  /** Escaping every character that is special inside double quotes makes the
      shell read the value back unchanged, unless a newline is escaped too and
      the value holds one. */
  lemma {:induction false} ReadEscaped(v: string, special: set<char>)
    requires QuoteSpecial <= special <= ShellSpecial
    requires '\n' in special ==> '\n' !in v
    ensures ReadDoubleQuoted(Escape(v, special)) == Some(v)
  {
    if v != [] {
      var c := v[0];
      var rest := Escape(v[1..], special);
      assert '\n' in special ==> '\n' !in v[1..];
      ReadEscaped(v[1..], special);
      assert [c] + v[1..] == v;
      if c in special {
        assert c in QuoteSpecial;
        assert Escape(v, special) == ['\\', c] + rest;
        assert (['\\', c] + rest)[2..] == rest;
      } else {
        assert Escape(v, special) == [c] + rest;
        assert ([c] + rest)[1..] == rest;
      }
    }
  }

  /** With `exportify`'s set, any value without a newline is read back as it was. */
  lemma ExportEscapeRoundTrip(v: string)
    requires '\n' !in v
    ensures ReadDoubleQuoted(Escape(v, ShellSpecial)) == Some(v)
  {
    ReadEscaped(v, ShellSpecial);
  }

  /** A value that is one newline is read back as the empty string: the
      escaping backslash turns the newline into a line continuation. */
  lemma EscapedNewlineIsLost()
    ensures Escape("\n", ShellSpecial) == "\\\n"
    ensures ReadDoubleQuoted(Escape("\n", ShellSpecial)) == Some("")
  {
    assert Escape("\n", ShellSpecial) == EscapeChar('\n', ShellSpecial) + Escape([], ShellSpecial);
    assert "\\\n"[2..] == [];
  }

  /** The escaping the serialiser evidently intends: only the characters that
      stay special inside double quotes get a backslash, so every value,
      newlines included, is read back unchanged. */
  function EscapeForDoubleQuotes(v: string): (r: string)
    ensures ReadDoubleQuoted(r) == Some(v)
    ensures |r| == |v| + CountIn(v, QuoteSpecial)
  {
    ReadEscaped(v, QuoteSpecial);
    EscapeLength(v, QuoteSpecial);
    Escape(v, QuoteSpecial)
  }
}

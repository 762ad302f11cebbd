/** The pieces of Go's `strings` package that the export serialisers rely on. */
module GoStrings {

  /** `unicode.IsSpace`: the characters with the Unicode White_Space property. */
  predicate IsSpace(c: char)
  {
    || c == '\t' || c == '\n' || c == '\U{000B}' || c == '\U{000C}' || c == '\r' || c == ' '
    || c == '\U{0085}' || c == '\U{00A0}' || c == '\U{1680}'
    || ('\U{2000}' <= c <= '\U{200A}')
    || c == '\U{2028}' || c == '\U{2029}' || c == '\U{202F}' || c == '\U{205F}' || c == '\U{3000}'
  }

  function TrimLeft(s: string): (r: string)
    ensures |r| <= |s| && r == s[|s| - |r|..]
    ensures forall i :: 0 <= i < |s| - |r| ==> IsSpace(s[i])
    ensures r == [] || !IsSpace(r[0])
  {
    if s != [] && IsSpace(s[0]) then TrimLeft(s[1..]) else s
  }

  function TrimRight(s: string): (r: string)
    ensures |r| <= |s| && r == s[..|r|]
    ensures forall i :: |r| <= i < |s| ==> IsSpace(s[i])
    ensures r == [] || !IsSpace(r[|r| - 1])
  {
    if s != [] && IsSpace(s[|s| - 1]) then TrimRight(s[..|s| - 1]) else s
  }

  /** `strings.TrimSpace`: `s` without its leading and trailing white space. */
  function TrimSpace(s: string): (r: string)
    ensures exists i, j :: && 0 <= i <= j <= |s| && r == s[i..j]
                           && (forall k :: 0 <= k < i ==> IsSpace(s[k]))
                           && (forall k :: j <= k < |s| ==> IsSpace(s[k]))
    ensures r == [] || (!IsSpace(r[0]) && !IsSpace(r[|r| - 1]))
  {
    var l := TrimLeft(s);
    var r := TrimRight(l);
    var i := |s| - |l|;
    assert r == s[i..i + |r|];
    assert forall k :: i + |r| <= k < |s| ==> s[k] == l[k - i];
    r
  }

  /** `strings.Join(lines, "\n")`. */
  function JoinLines(lines: seq<string>): (r: string)
  {
    if lines == [] then ""
    else if |lines| == 1 then lines[0]
    else lines[0] + "\n" + JoinLines(lines[1..])
  }

  /** Each line followed by a newline, as a builder that writes line by line
      produces them. */
  function Terminated(lines: seq<string>): (r: string)
  {
    if lines == [] then "" else Terminated(lines[..|lines| - 1]) + lines[|lines| - 1] + "\n"
  }

  lemma {:induction false} TerminatedIsJoinPlusNewline(lines: seq<string>)
    requires lines != []
    ensures Terminated(lines) == JoinLines(lines) + "\n"
  {
    if |lines| > 1 {
      var pre := lines[..|lines| - 1];
      var last := lines[|lines| - 1];
      TerminatedIsJoinPlusNewline(pre);
      JoinSnoc(pre, last);
      assert pre + [last] == lines;
      calc {
        Terminated(lines);
        Terminated(pre) + last + "\n";
        JoinLines(pre) + "\n" + last + "\n";
        JoinLines(lines) + "\n";
      }
    } else {
      assert lines[..0] == [];
    }
  }

  lemma {:induction false} JoinSnoc(lines: seq<string>, last: string)
    requires lines != []
    ensures JoinLines(lines + [last]) == JoinLines(lines) + "\n" + last
  {
    if |lines| > 1 {
      assert (lines + [last])[1..] == lines[1..] + [last];
      JoinSnoc(lines[1..], last);
    } else {
      assert (lines + [last])[1..] == [last];
    }
  }

  /** Trimming the white space off lines written one by one leaves the lines
      joined by newlines, without a trailing newline, as long as the text
      starts and ends with a visible character. */
  lemma {:induction false} TrimTerminated(lines: seq<string>)
    requires forall i :: 0 <= i < |lines| ==> lines[i] != []
    requires lines != [] ==> !IsSpace(lines[0][0]) && !IsSpace(lines[|lines| - 1][|lines[|lines| - 1]| - 1])
    ensures TrimSpace(Terminated(lines)) == JoinLines(lines)
  {
    if lines != [] {
      TerminatedIsJoinPlusNewline(lines);
      var j := JoinLines(lines);
      JoinEnds(lines);
      var b := j + "\n";
      assert TrimLeft(b) == b;
      assert b[..|b| - 1] == j;
      assert TrimRight(b) == TrimRight(j);
    }
  }

  /** A join of non-empty lines begins with the first line's first character
      and ends with the last line's last character. */
  lemma {:induction false} JoinEnds(lines: seq<string>)
    requires lines != []
    requires forall i :: 0 <= i < |lines| ==> lines[i] != []
    ensures var j := JoinLines(lines);
      j != [] && j[0] == lines[0][0] && j[|j| - 1] == lines[|lines| - 1][|lines[|lines| - 1]| - 1]
  {
    if |lines| > 1 {
      JoinEnds(lines[1..]);
    }
  }
}

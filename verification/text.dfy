/** Character-level helpers with the semantics of `java.lang.String` and of XML whitespace. */
module Text {
  import opened Wrappers
  import opened Seqs

  /** `String.trim()` strips every leading and trailing character at or below U+0020. */
  predicate IsTrimmable(c: char) {
    c <= ' '
  }

  /** A string that `String.trim()` leaves as it is. */
  predicate Trimmed(s: string) {
    s == [] || (!IsTrimmable(s[0]) && !IsTrimmable(s[|s| - 1]))
  }

  /** `s` with its leading trimmable characters removed. */
  function TrimStart(s: string): (r: string)
    ensures |r| <= |s| && r == s[|s| - |r|..]
    ensures forall i :: 0 <= i < |s| - |r| ==> IsTrimmable(s[i])
    ensures r == [] || !IsTrimmable(r[0])
  {
    if s != [] && IsTrimmable(s[0]) then TrimStart(s[1..]) else s
  }

  /** `s` with its trailing trimmable characters removed. */
  function TrimEnd(s: string): (r: string)
    ensures |r| <= |s| && r == s[..|r|]
    ensures forall i :: |r| <= i < |s| ==> IsTrimmable(s[i])
    ensures r == [] || !IsTrimmable(r[|r| - 1])
  {
    if s != [] && IsTrimmable(s[|s| - 1]) then TrimEnd(s[..|s| - 1]) else s
  }

  /** `String.trim()`. */
  function Trim(s: string): (r: string)
    ensures Trimmed(r)
    ensures |r| <= |s|
    ensures r == [] <==> forall i :: 0 <= i < |s| ==> IsTrimmable(s[i])
    ensures Trimmed(s) ==> r == s
  {
    var front := TrimStart(s);
    assert front == [] || !IsTrimmable(front[|front| - 1]) ==> TrimEnd(front) == front;
    TrimEnd(front)
  }

  predicate AllTrimmable(s: string) {
    forall i :: 0 <= i < |s| ==> IsTrimmable(s[i])
  }

  /** `Trim(s)` is what is left of `s` after removing trimmable runs from both ends only. */
  lemma TrimIsInfix(s: string)
    ensures exists front, back :: AllTrimmable(front) && AllTrimmable(back) && s == front + Trim(s) + back
  {
    var rest := TrimStart(s);
    var front := StartSplit(s);
    var back := EndSplit(rest);
    Regroup(s, front, rest, TrimEnd(rest), back);
    assert AllTrimmable(front) && AllTrimmable(back) && s == front + Trim(s) + back;
  }

  lemma StartSplit(s: string) returns (front: string)
    ensures AllTrimmable(front) && s == front + TrimStart(s)
  {
    front := s[..|s| - |TrimStart(s)|];
  }

  lemma EndSplit(s: string) returns (back: string)
    ensures AllTrimmable(back) && s == TrimEnd(s) + back
  {
    var r := TrimEnd(s);
    back := s[|r|..];
    assert s == r + back;
    forall i | 0 <= i < |back| ensures IsTrimmable(back[i]) {
      assert back[i] == s[|r| + i];
    }
  }

  lemma Regroup(s: string, front: string, rest: string, r: string, back: string)
    requires AllTrimmable(front) && AllTrimmable(back)
    requires s == front + rest && rest == r + back
    ensures s == front + r + back
  {
    AppendAssoc(front, r, back);
  }

  /** Trimming only removes characters: what was absent stays absent. */
  lemma TrimKeepsOut(s: string, c: char)
    requires c !in s
    ensures c !in Trim(s)
  {
    var front := TrimStart(s);
    var r := TrimEnd(front);
    assert r == front[..|r|];
    assert front == s[|s| - |front|..];
    assert forall i :: 0 <= i < |r| ==> r[i] == s[|s| - |front| + i];
  }

  /** The whitespace characters of XML 1.0 (production S), which `nextTag` skips. */
  predicate IsXmlSpace(c: char) {
    c == ' ' || c == '\t' || c == '\n' || c == '\r'
  }

  predicate IsBlank(s: string) {
    forall i :: 0 <= i < |s| ==> IsXmlSpace(s[i])
  }

  /** `String.indexOf(char)`: the position of the first `c` in `s`, if any. */
  function IndexOf(s: string, c: char): (r: Option<nat>)
    ensures r.None? <==> c !in s
    ensures r.Some? ==> r.value < |s| && s[r.value] == c && c !in s[..r.value]
  {
    if s == [] then None
    else if s[0] == c then Some(0)
    else
      var rest := IndexOf(s[1..], c);
      if rest.None? then None
      else
        assert s[..rest.value + 1] == [s[0]] + s[1..][..rest.value];
        Some(rest.value + 1)
  }
}

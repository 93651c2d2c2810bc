/** The string operations the engine relies on: `String.prototype.trim`,
    `toLowerCase` (ASCII letters only) and `split` on a single character. */
module Text {
  import opened Seqs

  /** The characters `trim` strips: ECMAScript white space and line
      terminators. */
  predicate IsSpace(c: char) {
    || c == ' ' || c == '\t' || c == '\n' || c == '\U{000B}' || c == '\U{000C}' || c == '\r'
    || c == '\U{00A0}' || c == '\U{1680}' || ('\U{2000}' <= c <= '\U{200A}')
    || c == '\U{2028}' || c == '\U{2029}' || c == '\U{202F}' || c == '\U{205F}'
    || c == '\U{3000}' || c == '\U{FEFF}'
  }

  /** `s` without its trailing white space. */
  function TrimEnd(s: string): (r: string)
    ensures |r| <= |s| && r == s[..|r|]
    ensures forall k :: |r| <= k < |s| ==> IsSpace(s[k])
    ensures |r| == 0 || !IsSpace(r[|r| - 1])
  {
    if |s| > 0 && IsSpace(s[|s| - 1]) then TrimEnd(s[..|s| - 1]) else s
  }

  /** `s` without its leading white space. */
  function TrimStart(s: string): (r: string)
    ensures |r| <= |s| && r == s[|s| - |r|..]
    ensures forall k :: 0 <= k < |s| - |r| ==> IsSpace(s[k])
    ensures |r| == 0 || !IsSpace(r[0])
  {
    if |s| > 0 && IsSpace(s[0]) then TrimStart(s[1..]) else s
  }

  /** `r` sits at offset `i` of `s` with only white space around it. */
  predicate TrimmedAt(s: string, r: string, i: nat) {
    && i + |r| <= |s|
    && r == s[i..i + |r|]
    && (forall k :: 0 <= k < i ==> IsSpace(s[k]))
    && (forall k :: i + |r| <= k < |s| ==> IsSpace(s[k]))
  }

  /** `s.trim()`: `s` is white space, then the result, then white space,
      and the result neither starts nor ends with white space. */
  function Trim(s: string): (r: string)
    ensures exists i: nat :: TrimmedAt(s, r, i)
    ensures |r| == 0 || (!IsSpace(r[0]) && !IsSpace(r[|r| - 1]))
  {
    var e := TrimEnd(s);
    var r := TrimStart(e);
    TrimEndStart(s, e, r);
    r
  }

  lemma TrimEndStart(s: string, e: string, r: string)
    requires e == TrimEnd(s) && r == TrimStart(e)
    ensures TrimmedAt(s, r, |e| - |r|)
  {
    var i := |e| - |r|;
    forall k | 0 <= k < i
      ensures IsSpace(s[k])
    {
      assert s[k] == e[k];
    }
    assert e[i..] == s[i..|e|];
  }

  /** A string that starts with a non-space character loses only its
      trailing white space to `trim`. */
  lemma TrimNonSpaceStart(s: string)
    requires |s| > 0 && !IsSpace(s[0])
    ensures Trim(s) == TrimEnd(s)
    ensures |Trim(s)| > 0 && Trim(s)[0] == s[0]
  {
    var e := TrimEnd(s);
    assert e[0] == s[0];
  }

  /** Trailing white space removal commutes with dropping a non-space first
      character. */
  lemma {:induction false} TrimEndTail(s: string)
    requires |s| > 0 && !IsSpace(s[0])
    ensures |TrimEnd(s)| > 0
    ensures TrimEnd(s)[1..] == TrimEnd(s[1..])
  {
    TrimNonSpaceStart(s);
    if IsSpace(s[|s| - 1]) {
      assert |s| > 1;
      TrimEndTail(s[..|s| - 1]);
      assert s[1..][..|s[1..]| - 1] == s[..|s| - 1][1..];
    }
  }

  function LowerChar(c: char): char {
    if 'A' <= c <= 'Z' then (c - 'A' + 'a') as char else c
  }

  /** `toLowerCase` restricted to ASCII letters. */
  function Lower(s: string): (r: string)
    ensures |r| == |s|
    ensures forall i :: 0 <= i < |s| ==> r[i] == LowerChar(s[i])
  {
    seq(|s|, i requires 0 <= i < |s| => LowerChar(s[i]))
  }

  /** `s.split(sep)`: the pieces between occurrences of `sep`; an empty
      string splits into one empty piece. */
  function Split(s: string, sep: char): (r: seq<string>)
    ensures |r| > 0
    ensures forall i :: 0 <= i < |r| ==> sep !in r[i]
    decreases |s|
  {
    var k := FirstIndex(s, sep);
    if k == |s| then [s]
    else [s[..k]] + Split(s[k + 1..], sep)
  }

  /** `pieces.join(sep)`. */
  function Join(pieces: seq<string>, sep: char): string {
    if |pieces| == 0 then ""
    else if |pieces| == 1 then pieces[0]
    else pieces[0] + [sep] + Join(pieces[1..], sep)
  }

  /** Joining the pieces of a split gives the string back. */
  lemma {:induction false} SplitJoin(s: string, sep: char)
    ensures Join(Split(s, sep), sep) == s
    decreases |s|
  {
    var k := FirstIndex(s, sep);
    if k < |s| {
      SplitStep(s, sep);
      SplitJoin(s[k + 1..], sep);
      JoinCons(s[..k], Split(s[k + 1..], sep), sep);
    }
  }

  /** One step of `split`: the piece before the first separator, then the
      split of the remainder. */
  lemma SplitStep(s: string, sep: char)
    requires FirstIndex(s, sep) < |s|
    ensures var k := FirstIndex(s, sep);
      && Split(s, sep) == [s[..k]] + Split(s[k + 1..], sep)
      && s == s[..k] + [sep] + s[k + 1..]
  {
    var k := FirstIndex(s, sep);
    SplitAround(s, k, sep);
  }

  lemma SplitAround(s: string, k: nat, sep: char)
    requires k < |s| && s[k] == sep
    ensures s == s[..k] + [sep] + s[k + 1..]
  {
  }

  lemma JoinCons(head: string, rest: seq<string>, sep: char)
    requires |rest| > 0
    ensures Join([head] + rest, sep) == head + [sep] + Join(rest, sep)
  {
    assert ([head] + rest)[1..] == rest;
  }
}

/**
 * The few Python `str` operations the schedule parsers use, on `seq<char>`:
 * `split` with an explicit separator, `join`, `replace` and `strip`.
 */
module Strings {
  import opened Wrappers

  /** `pat` occurs in `s` at index `i`. */
  predicate OccursAt(s: string, pat: string, i: int) {
    0 <= i && i + |pat| <= |s| && s[i..i + |pat|] == pat
  }

  /** `s.find(pat, from)`: the first index at or after `from` where `pat` occurs. */
  function Find(s: string, pat: string, from: nat): (r: Option<nat>)
    requires |pat| > 0
    ensures r.Some? ==> from <= r.value && OccursAt(s, pat, r.value)
    ensures forall i :: from <= i && (r.None? || i < r.value) ==> !OccursAt(s, pat, i)
    decreases |s| - from
  {
    if from + |pat| > |s| then None
    else if OccursAt(s, pat, from) then Some(from)
    else Find(s, pat, from + 1)
  }

  /** `s.split(sep)` for a non-empty separator: cut at each leftmost non-overlapping occurrence. */
  function Split(s: string, sep: string): (parts: seq<string>)
    requires |sep| > 0
    ensures |parts| >= 1
    ensures Join(sep, parts) == s
    ensures forall k, i :: 0 <= k < |parts| ==> !OccursAt(parts[k], sep, i)
    decreases |s|
  {
    match Find(s, sep, 0)
    case None => [s]
    case Some(i) =>
      var rest := Split(s[i + |sep|..], sep);
      JoinCons(sep, s[..i], rest);
      assert s == s[..i] + sep + s[i + |sep|..];
      PrefixFree(s, sep, i);
      [s[..i]] + rest
  }

  /** Before the first occurrence of `sep`, the prefix holds no occurrence either. */
  lemma PrefixFree(s: string, sep: string, i: nat)
    requires |sep| > 0 && i <= |s| && forall j :: 0 <= j < i ==> !OccursAt(s, sep, j)
    ensures forall j :: !OccursAt(s[..i], sep, j)
  {
    forall j | OccursAt(s[..i], sep, j)
      ensures false
    {
      assert s[..i][j..j + |sep|] == s[j..j + |sep|];
      assert OccursAt(s, sep, j);
    }
  }

  /** `sep.join(parts)`. */
  function Join(sep: string, parts: seq<string>): string {
    if |parts| == 0 then ""
    else if |parts| == 1 then parts[0]
    else parts[0] + sep + Join(sep, parts[1..])
  }

  /** `s.replace(pat, rep)`, which Python defines as `rep.join(s.split(pat))`. */
  function Replace(s: string, pat: string, rep: string): string
    requires |pat| > 0
  {
    Join(rep, Split(s, pat))
  }

  /** Characters for which Python's `str.isspace()` holds. */
  predicate IsSpace(c: char) {
    c in {' ', '\t', '\n', '\r', '\U{0B}', '\U{0C}', '\U{1C}', '\U{1D}', '\U{1E}', '\U{1F}',
          '\U{85}', '\U{A0}', '\U{1680}', '\U{2000}', '\U{2001}', '\U{2002}', '\U{2003}',
          '\U{2004}', '\U{2005}', '\U{2006}', '\U{2007}', '\U{2008}', '\U{2009}', '\U{200A}',
          '\U{2028}', '\U{2029}', '\U{202F}', '\U{205F}', '\U{3000}'}
  }

  /** `s.lstrip()`: `s` with its leading white space taken off, and nothing else. */
  function StripLeft(s: string): (r: string)
    ensures |r| <= |s| && r == s[|s| - |r|..]
    ensures forall i :: 0 <= i < |s| - |r| ==> IsSpace(s[i])
    ensures r == [] || !IsSpace(r[0])
  {
    if |s| > 0 && IsSpace(s[0]) then StripLeft(s[1..]) else s
  }

  /** `s.rstrip()`: `s` with its trailing white space taken off, and nothing else. */
  function StripRight(s: string): (r: string)
    ensures |r| <= |s| && r == s[..|r|]
    ensures forall i :: |r| <= i < |s| ==> IsSpace(s[i])
    ensures r == [] || !IsSpace(r[|r| - 1])
  {
    if |s| > 0 && IsSpace(s[|s| - 1]) then StripRight(s[..|s| - 1]) else s
  }

  /** `s.strip()`. */
  function Strip(s: string): string {
    StripRight(StripLeft(s))
  }

  /** Text that neither starts nor ends with white space is its own strip. */
  lemma StripClean(s: string)
    requires s == [] || (!IsSpace(s[0]) && !IsSpace(s[|s| - 1]))
    ensures StripLeft(s) == s && Strip(s) == s
  {
    assert StripLeft(s) == s;
  }

  /** One leading blank before such text is stripped away. */
  lemma StripBlankClean(s: string)
    requires s == [] || (!IsSpace(s[0]) && !IsSpace(s[|s| - 1]))
    ensures Strip(" " + s) == s
  {
    StripClean(s);
    assert (" " + s)[1..] == s;
    assert StripLeft(" " + s) == StripLeft(s);
  }

  /** No occurrence of `sep` starts inside `p`, even one running into a following `sep`. */
  predicate SplitsCleanly(p: string, sep: string) {
    forall i :: 0 <= i < |p| ==> !OccursAt(p + sep, sep, i)
  }

  lemma {:induction false} FindAfterClean(p: string, sep: string, t: string)
    requires |sep| > 0 && SplitsCleanly(p, sep)
    ensures Find(p + sep + t, sep, 0) == Some(|p|)
  {
    var s := p + sep + t;
    assert s[|p|..|p| + |sep|] == sep;
    assert OccursAt(s, sep, |p|);
    forall i | 0 <= i < |p|
      ensures !OccursAt(s, sep, i)
    {
      if OccursAt(s, sep, i) {
        assert s[i..i + |sep|] == (p + sep)[i..i + |sep|];
        assert OccursAt(p + sep, sep, i);
      }
    }
  }

  lemma {:induction false} FindNoneClean(p: string, sep: string)
    requires |sep| > 0 && SplitsCleanly(p, sep)
    ensures Find(p, sep, 0) == None
  {
    forall i | 0 <= i
      ensures !OccursAt(p, sep, i)
    {
      if OccursAt(p, sep, i) {
        assert i < |p|;
        assert (p + sep)[i..i + |sep|] == p[i..i + |sep|];
        assert OccursAt(p + sep, sep, i);
      }
    }
  }

  lemma {:induction false} JoinCons(sep: string, x: string, rest: seq<string>)
    requires |rest| > 0
    ensures Join(sep, [x] + rest) == x + sep + Join(sep, rest)
  {
    assert ([x] + rest)[1..] == rest;
  }

  /** Splitting a join gives the parts back when no separator hides inside a part. */
  lemma {:induction false} SplitJoin(sep: string, parts: seq<string>)
    requires |sep| > 0 && |parts| >= 1
    requires forall k :: 0 <= k < |parts| ==> SplitsCleanly(parts[k], sep)
    ensures Split(Join(sep, parts), sep) == parts
    decreases |parts|
  {
    if |parts| == 1 {
      FindNoneClean(parts[0], sep);
    } else {
      var p, more := parts[0], parts[1..];
      var rest := Join(sep, more);
      var s := p + sep + rest;
      assert Join(sep, parts) == s;
      FindAfterClean(p, sep, rest);
      assert s[..|p|] == p;
      assert s[|p| + |sep|..] == rest;
      assert Split(s, sep) == [p] + Split(rest, sep);
      assert forall k :: 0 <= k < |more| ==> more[k] == parts[k + 1];
      SplitJoin(sep, more);
      assert parts == [p] + more;
    }
  }

  /** A mismatch at any character of the window rules an occurrence out. */
  lemma {:induction false} MismatchAt(s: string, pat: string, i: int, j: int)
    requires 0 <= i && 0 <= j < |pat| && i + j < |s| && s[i + j] != pat[j]
    ensures !OccursAt(s, pat, i)
  {
    if i + |pat| <= |s| {
      assert s[i..i + |pat|][j] == s[i + j];
    }
  }

  /** A part without the separator's first character splits cleanly. */
  lemma {:induction false} CleanWithoutFirstChar(p: string, sep: string)
    requires |sep| > 0 && sep[0] !in p
    ensures SplitsCleanly(p, sep)
  {
    forall i | 0 <= i < |p|
      ensures !OccursAt(p + sep, sep, i)
    {
      assert (p + sep)[i] == p[i] != sep[0];
    }
  }
}

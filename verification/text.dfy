/**
  The handful of .NET `System.String` operations the program relies on,
  over `string` (= `seq<char>`): white-space tests and trimming, substring
  search, splitting on a separator, character replacement and removal, and
  lower-casing.
 */
module Text {

  /** `char.IsWhiteSpace`: the Unicode space separators, line and paragraph
      separators, and the control characters TAB..CR and NEL. */
  predicate IsWhiteSpace(c: char)
  {
    || ('\t' <= c <= '\r')
    || c == ' '
    || c == '\U{0085}'
    || c == '\U{00A0}'
    || c == '\U{1680}'
    || ('\U{2000}' <= c <= '\U{200A}')
    || c == '\U{2028}'
    || c == '\U{2029}'
    || c == '\U{202F}'
    || c == '\U{205F}'
    || c == '\U{3000}'
  }

  /** `string.IsNullOrWhiteSpace` for a non-null string. */
  predicate IsBlank(s: string)
  {
    forall i :: 0 <= i < |s| ==> IsWhiteSpace(s[i])
  }

  /** `TrimStart()`: drops the leading white space, and only that. */
  function TrimStart(s: string): (r: string)
    ensures |r| <= |s| && r == s[|s| - |r|..]
    ensures forall i :: 0 <= i < |s| - |r| ==> IsWhiteSpace(s[i])
    ensures |r| > 0 ==> !IsWhiteSpace(r[0])
  {
    if |s| > 0 && IsWhiteSpace(s[0]) then TrimStart(s[1..]) else s
  }

  /** `TrimEnd()`: drops the trailing white space, and only that. */
  function TrimEnd(s: string): (r: string)
    ensures |r| <= |s| && r == s[..|r|]
    ensures forall i :: |r| <= i < |s| ==> IsWhiteSpace(s[i])
    ensures |r| > 0 ==> !IsWhiteSpace(r[|r| - 1])
  {
    if |s| > 0 && IsWhiteSpace(s[|s| - 1]) then TrimEnd(s[..|s| - 1]) else s
  }

  /** `Trim()`. */
  function Trim(s: string): string
  {
    TrimEnd(TrimStart(s))
  }

  /** What `TrimStart` drops is white space. */
  lemma TrimStartDropsBlank(s: string)
    ensures IsBlank(s[..|s| - |TrimStart(s)|])
  {
    var k := |s| - |TrimStart(s)|;
    forall i | 0 <= i < k
      ensures IsWhiteSpace(s[..k][i])
    {
      assert s[..k][i] == s[i];
    }
  }

  /** What `TrimEnd` drops is white space. */
  lemma TrimEndDropsBlank(t: string)
    ensures IsBlank(t[|TrimEnd(t)|..])
  {
    var n := |TrimEnd(t)|;
    forall i | 0 <= i < |t| - n
      ensures IsWhiteSpace(t[n..][i])
    {
      assert t[n..][i] == t[n + i];
    }
  }

  /** Where the trimmed slice sits: after the leading white space and before
      the trailing white space. */
  lemma TrimBounds(s: string) returns (i: int, j: int)
    ensures 0 <= i <= j <= |s| && Trim(s) == s[i..j]
    ensures IsBlank(s[..i]) && IsBlank(s[j..])
  {
    var t := TrimStart(s);
    var r := TrimEnd(t);
    i := |s| - |t|;
    j := i + |r|;
    assert r == Trim(s);
    assert r == s[i..j] by {
      assert t == s[i..];
      assert s[i..][..|r|] == s[i..j];
    }
    assert IsBlank(s[j..]) by {
      TrimEndDropsBlank(t);
      assert s[j..] == t[|r|..];
    }
    assert IsBlank(s[..i]) by {
      TrimStartDropsBlank(s);
    }
  }

  /** Trimming leaves nothing exactly when the string is white space only,
      and otherwise keeps the contiguous slice between the leading and the
      trailing white space, whose ends are not white space. */
  lemma TrimProperties(s: string)
    ensures Trim(s) == [] <==> IsBlank(s)
    ensures exists i, j :: 0 <= i <= j <= |s| && Trim(s) == s[i..j] && IsBlank(s[..i]) && IsBlank(s[j..])
    ensures |Trim(s)| > 0 ==> !IsWhiteSpace(Trim(s)[0]) && !IsWhiteSpace(Trim(s)[|Trim(s)| - 1])
  {
    var i, j := TrimBounds(s);
    if Trim(s) == [] {
      forall k | 0 <= k < |s|
        ensures IsWhiteSpace(s[k])
      {
        if k < i {
          assert s[..i][k] == s[k];
        } else {
          assert s[j..][k - j] == s[k];
        }
      }
    } else {
      assert s[i] == Trim(s)[0];
    }
  }

  /** Concatenation regroups freely. */
  lemma ConcatAssoc(a: string, b: string, c: string)
    ensures (a + b) + c == a + (b + c)
  {
  }

  /** `pat` occurs in `s` starting at index `i`. */
  predicate OccursAt(s: string, pat: string, i: int)
  {
    0 <= i && i + |pat| <= |s| && s[i..i + |pat|] == pat
  }

  /** `s.Contains(pat)`. */
  predicate Contains(s: string, pat: string)
  {
    exists i :: 0 <= i <= |s| - |pat| && OccursAt(s, pat, i)
  }

  /** Searching for a one-character string is searching for the character. */
  lemma ContainsSingle(s: string, c: char)
    ensures Contains(s, [c]) <==> c in s
  {
    if c in s {
      var i :| 0 <= i < |s| && s[i] == c;
      assert OccursAt(s, [c], i);
    }
    forall i | OccursAt(s, [c], i)
      ensures s[i] == c
    {
      assert s[i..i + 1][0] == s[i];
    }
  }

  lemma OccursAtTail(s: string, pat: string, j: int)
    requires |s| > 0 && 0 <= j
    ensures OccursAt(s[1..], pat, j) <==> OccursAt(s, pat, j + 1)
  {
    if j + 1 + |pat| <= |s| {
      assert s[1..][j..j + |pat|] == s[j + 1..j + 1 + |pat|];
    }
  }

  /** `s.IndexOf(pat)` (ordinal): the first occurrence, or -1. */
  function IndexOf(s: string, pat: string): (i: int)
    requires |pat| > 0
    ensures -1 <= i
    ensures i >= 0 ==> i + |pat| <= |s|
    ensures i >= 0 ==> OccursAt(s, pat, i)
    ensures i >= 0 ==> forall j :: 0 <= j < i ==> !OccursAt(s, pat, j)
    ensures i < 0 <==> !Contains(s, pat)
    decreases |s|
  {
    if |s| < |pat| then -1
    else if s[..|pat|] == pat then
      assert OccursAt(s, pat, 0);
      0
    else
      var k := IndexOf(s[1..], pat);
      assert !OccursAt(s, pat, 0);
      if k < 0 then
        assert forall j :: 0 <= j <= |s| - |pat| ==> !OccursAt(s, pat, j) by {
          forall j | 0 <= j <= |s| - |pat|
            ensures !OccursAt(s, pat, j)
          {
            if j > 0 {
              OccursAtTail(s, pat, j - 1);
            }
          }
        }
        -1
      else
        OccursAtTail(s, pat, k);
        assert forall j :: 0 <= j < k + 1 ==> !OccursAt(s, pat, j) by {
          forall j | 0 <= j < k + 1
            ensures !OccursAt(s, pat, j)
          {
            if j > 0 {
              OccursAtTail(s, pat, j - 1);
            }
          }
        }
        k + 1
  }

  /** `s.IndexOf(c)`: the first index holding `c`, or -1. */
  function IndexOfChar(s: string, c: char): (i: int)
    ensures -1 <= i < |s|
    ensures i >= 0 ==> s[i] == c && c !in s[..i]
    ensures i < 0 <==> c !in s
  {
    if |s| == 0 then -1
    else if s[0] == c then 0
    else
      var k := IndexOfChar(s[1..], c);
      assert s == [s[0]] + s[1..];
      if k < 0 then -1
      else
        assert s[..k + 1] == [s[0]] + s[1..][..k];
        k + 1
  }

  /** `s.LastIndexOf(c, start)`: the last index at or before `start`
      holding `c`, or -1. The search runs backwards from `start`. */
  function LastIndexOfChar(s: string, c: char, start: int): (i: int)
    requires -1 <= start < |s|
    ensures -1 <= i <= start
    ensures i >= 0 ==> s[i] == c
    ensures forall j :: i < j <= start ==> s[j] != c
    decreases start + 1
  {
    if start < 0 then -1
    else if s[start] == c then start
    else LastIndexOfChar(s, c, start - 1)
  }

  /** The parts joined back together with `sep` between neighbours
      (`string.Join`). */
  function Join(parts: seq<string>, sep: string): string
    requires |parts| > 0
  {
    if |parts| == 1 then parts[0] else parts[0] + sep + Join(parts[1..], sep)
  }

  lemma JoinCons(head: string, rest: seq<string>, sep: string)
    requires |rest| > 0
    ensures Join([head] + rest, sep) == head + sep + Join(rest, sep)
  {
    assert ([head] + rest)[1..] == rest;
  }

  /** Cutting `s` around an occurrence of `sep` at `i` loses nothing. */
  lemma CutAround(s: string, sep: string, i: int)
    requires OccursAt(s, sep, i)
    ensures s == s[..i] + sep + s[i + |sep|..]
  {
    assert s == s[..i] + s[i..i + |sep|] + s[i + |sep|..];
  }

  /** What precedes the first occurrence of `sep` holds no occurrence. */
  lemma NoneBeforeFirst(s: string, sep: string, i: int)
    requires |sep| > 0 && 0 <= i <= |s|
    requires forall j :: 0 <= j < i ==> !OccursAt(s, sep, j)
    ensures !Contains(s[..i], sep)
  {
    forall j | 0 <= j <= i - |sep|
      ensures !OccursAt(s[..i], sep, j)
    {
      if OccursAt(s[..i], sep, j) {
        assert s[..i][j..j + |sep|] == s[j..j + |sep|];
        assert OccursAt(s, sep, j);
      }
    }
  }

  /** The first occurrence is the one `IndexOf` finds. */
  lemma IndexOfIs(u: string, sep: string, i: int)
    requires |sep| > 0 && 0 <= i && OccursAt(u, sep, i)
    requires forall j :: 0 <= j < i ==> !OccursAt(u, sep, j)
    ensures IndexOf(u, sep) == i
  {
    assert Contains(u, sep);
  }

  /** Before position `i`, a prefix `u` of `s` reaching past `i + |sep|`
      has no occurrence that `s` lacks. */
  lemma NoEarlier(s: string, u: string, sep: string, i: int)
    requires |sep| > 0 && 0 <= i && i + |sep| <= |u| <= |s| && u == s[..|u|]
    requires forall j :: 0 <= j < i ==> !OccursAt(s, sep, j)
    ensures forall j :: 0 <= j < i ==> !OccursAt(u, sep, j)
  {
    forall j | 0 <= j < i
      ensures !OccursAt(u, sep, j)
    {
      assert !OccursAt(s, sep, j);
      assert u[j..j + |sep|] == s[j..j + |sep|];
    }
  }

  /** Cutting just after the first occurrence of `sep` keeps that occurrence
      first: the text before it, followed by `sep`, has its first occurrence
      at the end. */
  lemma FirstCutIsFirst(s: string, sep: string, i: int)
    requires |sep| > 0 && 0 <= i && IndexOf(s, sep) == i
    ensures IndexOf(s[..i] + sep, sep) == i
  {
    var u := s[..i] + sep;
    assert u == s[..i + |sep|] by {
      CutAround(s, sep, i);
    }
    NoEarlier(s, u, sep, i);
    assert OccursAt(u, sep, i) by {
      assert u[i..i + |sep|] == sep;
    }
    IndexOfIs(u, sep, i);
  }

  /** `s.Split(sep)` with no options: cut at every occurrence of `sep`, found
      left to right without overlap; empty parts are kept. Splitting on a
      single character is the case `|sep| == 1`. */
  function SplitOn(s: string, sep: string): (parts: seq<string>)
    requires |sep| > 0
    ensures |parts| >= 1
    ensures Join(parts, sep) == s
    ensures forall k :: 0 <= k < |parts| ==> !Contains(parts[k], sep)
    ensures |parts| == 1 <==> !Contains(s, sep)
    ensures Contains(s, sep) ==> parts[0] == s[..IndexOf(s, sep)]
    ensures forall k :: 0 <= k < |parts| - 1 ==> IndexOf(parts[k] + sep, sep) == |parts[k]|
    decreases |s|
  {
    var i := IndexOf(s, sep);
    if i < 0 then [s]
    else
      var rest := SplitOn(s[i + |sep|..], sep);
      JoinCons(s[..i], rest, sep);
      CutAround(s, sep, i);
      NoneBeforeFirst(s, sep, i);
      FirstCutIsFirst(s, sep, i);
      var parts := [s[..i]] + rest;
      assert forall k :: 1 <= k < |parts| ==> parts[k] == rest[k - 1];
      parts
  }

  /** `s.Replace(a, b)` for characters: every `a` becomes `b`, nothing else
      changes. */
  function ReplaceChar(s: string, a: char, b: char): (r: string)
    ensures |r| == |s|
    ensures forall i :: 0 <= i < |s| ==> r[i] == (if s[i] == a then b else s[i])
  {
    if |s| == 0 then [] else [if s[0] == a then b else s[0]] + ReplaceChar(s[1..], a, b)
  }

  /** `s.Replace("c", "")`: every `c` is deleted, the rest keeps its order. */
  function RemoveChar(s: string, c: char): (r: string)
    ensures c !in r
    ensures |r| <= |s|
    ensures forall x :: x != c ==> multiset(r)[x] == multiset(s)[x]
  {
    if |s| == 0 then []
    else
      assert s == [s[0]] + s[1..];
      if s[0] == c then RemoveChar(s[1..], c) else [s[0]] + RemoveChar(s[1..], c)
  }

  /** Deleting a character distributes over concatenation. With the counts
      above this fixes the result: the kept characters stay in order. */
  lemma {:induction false} RemoveCharAppend(a: string, b: string, c: char)
    ensures RemoveChar(a + b, c) == RemoveChar(a, c) + RemoveChar(b, c)
    decreases |a|
  {
    if |a| == 0 {
      assert a + b == b;
    } else {
      assert (a + b)[0] == a[0];
      assert (a + b)[1..] == a[1..] + b;
      RemoveCharAppend(a[1..], b, c);
    }
  }

  /** `char.ToLower` restricted to the ASCII letters. */
  function LowerChar(c: char): char
  {
    if 'A' <= c <= 'Z' then (c as int - 'A' as int + 'a' as int) as char else c
  }

  /** `s.ToLower()`, character by character. */
  function ToLower(s: string): (r: string)
    ensures |r| == |s|
    ensures forall i :: 0 <= i < |s| ==> r[i] == LowerChar(s[i])
  {
    if |s| == 0 then [] else [LowerChar(s[0])] + ToLower(s[1..])
  }
}

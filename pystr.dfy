/**
 * The Python `str` operations the pipeline relies on, over `string`
 * (`seq<char>`): `in`, `replace`, `count`, `split`, `join` and `strip`.
 * `replace`, `count` and `split` scan left to right and take
 * non-overlapping occurrences of a non-empty pattern, as CPython does.
 */
module PyStr {

  // ---------------------------------------------------------------- `in`

  /** `pat in s`: some window of `s` equals `pat`. */
  predicate Contains(s: string, pat: string)
    decreases |s|
  {
    |pat| <= |s| && (s[..|pat|] == pat || (0 < |s| && Contains(s[1..], pat)))
  }

  /** `pat` occurs in `s` starting at index `i`. */
  predicate OccursAt(s: string, pat: string, i: int)
  {
    0 <= i && i + |pat| <= |s| && s[i..i + |pat|] == pat
  }

  /** `Contains` agrees with the index-based reading of a substring. */
  lemma {:induction false} ContainsIff(s: string, pat: string)
    ensures Contains(s, pat) <==> exists i :: OccursAt(s, pat, i)
    decreases |s|
  {
    if |pat| <= |s| {
      if s[..|pat|] == pat {
        assert OccursAt(s, pat, 0);
      } else {
        ContainsIff(s[1..], pat);
        if Contains(s[1..], pat) {
          var i :| OccursAt(s[1..], pat, i);
          assert s[1..][i..i + |pat|] == s[i + 1..i + 1 + |pat|];
          assert OccursAt(s, pat, i + 1);
        }
        if i :| OccursAt(s, pat, i) {
          assert i != 0;
          assert s[1..][i - 1..i - 1 + |pat|] == s[i..i + |pat|];
          assert OccursAt(s[1..], pat, i - 1);
        }
      }
    }
  }

  /** A pattern found in a slice of `s` is found in `s`. */
  lemma ContainsInSlice(s: string, pat: string, lo: int, hi: int)
    requires 0 <= lo <= hi <= |s|
    requires Contains(s[lo..hi], pat)
    ensures Contains(s, pat)
  {
    ContainsIff(s[lo..hi], pat);
    var i :| OccursAt(s[lo..hi], pat, i);
    assert 0 <= i && i + |pat| <= hi - lo;
    forall t | 0 <= t < |pat|
      ensures s[lo + i..lo + i + |pat|][t] == pat[t]
    {
      assert s[lo..hi][i..i + |pat|][t] == pat[t];
    }
    assert OccursAt(s, pat, lo + i);
    ContainsIff(s, pat);
  }

  /** A pattern absent from `s` is absent from every slice of it. */
  lemma AbsentFromSlice(s: string, pat: string, r: string, lo: int)
    requires OccursAt(s, r, lo) && !Contains(s, pat)
    ensures !Contains(r, pat)
  {
    if Contains(r, pat) {
      assert r == s[lo..lo + |r|];
      ContainsInSlice(s, pat, lo, lo + |r|);
    }
  }

  /** A string that holds `p + q` holds `p`. */
  lemma ContainsPrefixOfPattern(s: string, p: string, q: string)
    requires Contains(s, p + q)
    ensures Contains(s, p)
  {
    ContainsIff(s, p + q);
    var i :| OccursAt(s, p + q, i);
    assert s[i..i + |p|] == s[i..i + |p + q|][..|p|];
    assert OccursAt(s, p, i);
    ContainsIff(s, p);
  }

  /** No character of `s` is `c`. */
  predicate NoChar(s: string, c: char)
  {
    forall i :: 0 <= i < |s| ==> s[i] != c
  }

  // ---------------------------------------------------------------- `replace`

  /** `s.replace(pat, rep)`. */
  function ReplaceAll(s: string, pat: string, rep: string): (r: string)
    requires pat != []
    ensures !Contains(s, pat) ==> r == s
    decreases |s|
  {
    if |s| < |pat| then s
    else if s[..|pat|] == pat then rep + ReplaceAll(s[|pat|..], pat, rep)
    else [s[0]] + ReplaceAll(s[1..], pat, rep)
  }

  /** A prefix free of the pattern's first character passes through `replace` unchanged. */
  lemma {:induction false} ReplaceAllSkipsPrefix(a: string, b: string, pat: string, rep: string)
    requires pat != [] && NoChar(a, pat[0])
    ensures ReplaceAll(a + b, pat, rep) == a + ReplaceAll(b, pat, rep)
    decreases |a|
  {
    if a != [] {
      var s := a + b;
      assert s[0] == a[0];
      assert s[1..] == a[1..] + b;
      ReplaceAllSkipsPrefix(a[1..], b, pat, rep);
    } else {
      assert a + b == b;
    }
  }

  // ---------------------------------------------------------------- `count`

  /** `s.count(pat)`. */
  function Count(s: string, pat: string): (n: nat)
    requires pat != []
    ensures n == 0 <==> !Contains(s, pat)
    decreases |s|
  {
    if |s| < |pat| then 0
    else if s[..|pat|] == pat then 1 + Count(s[|pat|..], pat)
    else Count(s[1..], pat)
  }

  // ---------------------------------------------------------------- `split`, `join`

  /** `s.split(sep)`. */
  function Split(s: string, sep: string): (parts: seq<string>)
    requires sep != []
    ensures 1 <= |parts|
    ensures !Contains(s, sep) ==> parts == [s]
    decreases |s|
  {
    if |s| < |sep| then [s]
    else if s[..|sep|] == sep then [""] + Split(s[|sep|..], sep)
    else
      var rest := Split(s[1..], sep);
      assert [s[0]] + s[1..] == s;
      [[s[0]] + rest[0]] + rest[1..]
  }

  /** `sep.join(parts)`. */
  function Join(parts: seq<string>, sep: string): string
    decreases |parts|
  {
    if parts == [] then ""
    else if |parts| == 1 then parts[0]
    else parts[0] + sep + Join(parts[1..], sep)
  }

  lemma JoinConsChar(c: char, parts: seq<string>, sep: string)
    requires parts != []
    ensures Join([[c] + parts[0]] + parts[1..], sep) == [c] + Join(parts, sep)
  {
    var ps := [[c] + parts[0]] + parts[1..];
    assert ps[1..] == parts[1..];
  }

  lemma JoinConsEmpty(parts: seq<string>, sep: string)
    requires parts != []
    ensures Join([""] + parts, sep) == sep + Join(parts, sep)
  {
    assert ([""] + parts)[1..] == parts;
  }

  /** `s.split(pat)` yields one piece more than `s.count(pat)`. */
  lemma {:induction false} SplitCount(s: string, sep: string)
    requires sep != []
    ensures |Split(s, sep)| == Count(s, sep) + 1
    decreases |s|
  {
    if |s| < |sep| {
    } else if s[..|sep|] == sep {
      SplitCount(s[|sep|..], sep);
    } else {
      SplitCount(s[1..], sep);
    }
  }

  /** `s.replace(pat, rep) == rep.join(s.split(pat))`. */
  lemma {:induction false} ReplaceIsJoinOfSplit(s: string, pat: string, rep: string)
    requires pat != []
    ensures ReplaceAll(s, pat, rep) == Join(Split(s, pat), rep)
    decreases |s|
  {
    if |s| < |pat| {
    } else if s[..|pat|] == pat {
      ReplaceIsJoinOfSplit(s[|pat|..], pat, rep);
      JoinConsEmpty(Split(s[|pat|..], pat), rep);
    } else {
      ReplaceIsJoinOfSplit(s[1..], pat, rep);
      JoinConsChar(s[0], Split(s[1..], pat), rep);
    }
  }

  /** No proper prefix of `sep` is also a suffix of it, so two occurrences never overlap. */
  ghost predicate BorderFree(sep: string)
  {
    forall k :: 0 < k < |sep| ==> sep[..k] != sep[|sep| - k..]
  }

  /** A separator whose first character does not recur is border-free. */
  lemma HeadUniqueBorderFree(sep: string)
    requires sep != [] && NoChar(sep[1..], sep[0])
    ensures BorderFree(sep)
  {
    forall k | 0 < k < |sep|
      ensures sep[..k] != sep[|sep| - k..]
    {
      assert sep[..k][0] == sep[0];
      assert sep[|sep| - k..][0] == sep[1..][|sep| - k - 1];
    }
  }

  /** A border-free `sep` absent from a non-empty `a` does not start `a + sep + b`. */
  lemma NoOccurrenceAtStart(a: string, sep: string, b: string)
    requires a != [] && sep != [] && BorderFree(sep) && !Contains(a, sep)
    ensures (a + sep + b)[..|sep|] != sep
  {
    var s := a + sep + b;
    if |sep| <= |a| {
      assert a[..|sep|] == s[..|sep|];
    } else {
      var k := |sep| - |a|;
      assert s[..|sep|][|a|..] == sep[..k];
      assert sep[..k] != sep[|a|..];
    }
  }

  /** The first occurrence of a border-free `sep` in `a + sep + b` is the one after `a`. */
  lemma {:induction false} SplitAtFirst(a: string, sep: string, b: string)
    requires sep != [] && BorderFree(sep) && !Contains(a, sep)
    ensures Split(a + sep + b, sep) == [a] + Split(b, sep)
    decreases |a|
  {
    var s := a + sep + b;
    if a == [] {
      assert s == sep + b;
      assert s[..|sep|] == sep && s[|sep|..] == b;
    } else {
      NoOccurrenceAtStart(a, sep, b);
      assert !Contains(a[1..], sep);
      SplitAtFirst(a[1..], sep, b);
      assert s[1..] == a[1..] + sep + b;
      assert [s[0]] + a[1..] == a;
    }
  }

  /** `sep.join(parts).split(sep) == parts` when no part holds `sep`. */
  lemma {:induction false} SplitJoin(parts: seq<string>, sep: string)
    requires sep != [] && BorderFree(sep) && parts != []
    requires forall i :: 0 <= i < |parts| ==> !Contains(parts[i], sep)
    ensures Split(Join(parts, sep), sep) == parts
    decreases |parts|
  {
    if |parts| > 1 {
      SplitJoin(parts[1..], sep);
      SplitAtFirst(parts[0], sep, Join(parts[1..], sep));
      assert [parts[0]] + parts[1..] == parts;
    }
  }

  /** `sep.join(parts).count(sep) == len(parts) - 1` when no part holds `sep`. */
  lemma CountJoin(parts: seq<string>, sep: string)
    requires sep != [] && BorderFree(sep) && parts != []
    requires forall i :: 0 <= i < |parts| ==> !Contains(parts[i], sep)
    ensures Count(Join(parts, sep), sep) == |parts| - 1
  {
    SplitJoin(parts, sep);
    SplitCount(Join(parts, sep), sep);
  }

  /** `(a + sep + b).replace(sep, rep) == a + rep + b.replace(sep, rep)` under the same conditions. */
  lemma ReplaceAtFirst(a: string, sep: string, b: string, rep: string)
    requires sep != [] && BorderFree(sep) && !Contains(a, sep)
    ensures ReplaceAll(a + sep + b, sep, rep) == a + rep + ReplaceAll(b, sep, rep)
  {
    ReplaceIsJoinOfSplit(a + sep + b, sep, rep);
    ReplaceIsJoinOfSplit(b, sep, rep);
    SplitAtFirst(a, sep, b);
    var rest := Split(b, sep);
    assert ([a] + rest)[1..] == rest;
  }

  // ---------------------------------------------------------------- `strip`

  /** `c.isspace()`: the characters CPython's `str.strip()` removes by default. */
  predicate IsSpace(c: char)
  {
    || c == ' '
    || '\t' <= c <= '\r'
    || '\U{1C}' <= c <= '\U{1F}'
    || c == '\U{85}' || c == '\U{A0}' || c == '\U{1680}'
    || '\U{2000}' <= c <= '\U{200A}'
    || c == '\U{2028}' || c == '\U{2029}' || c == '\U{202F}' || c == '\U{205F}' || c == '\U{3000}'
  }

  /** `s.lstrip()`: the removed prefix is all whitespace and what is left does not start with any. */
  function TrimStart(s: string): (r: string)
    ensures |r| <= |s| && r == s[|s| - |r|..]
    ensures forall i :: 0 <= i < |s| - |r| ==> IsSpace(s[i])
    ensures r == [] || !IsSpace(r[0])
    decreases |s|
  {
    if 0 < |s| && IsSpace(s[0]) then TrimStart(s[1..]) else s
  }

  /** `s.rstrip()`: the removed suffix is all whitespace and what is left does not end with any. */
  function TrimEnd(s: string): (r: string)
    ensures |r| <= |s| && r == s[..|r|]
    ensures forall i :: |r| <= i < |s| ==> IsSpace(s[i])
    ensures r == [] || !IsSpace(r[|r| - 1])
    decreases |s|
  {
    if 0 < |s| && IsSpace(s[|s| - 1]) then TrimEnd(s[..|s| - 1]) else s
  }

  /** Neither end of `s` is whitespace. */
  predicate Stripped(s: string)
  {
    s == [] || (!IsSpace(s[0]) && !IsSpace(s[|s| - 1]))
  }

  /** `s.strip()`: stripped, and the identity on what is already stripped. */
  function Strip(s: string): (r: string)
    ensures Stripped(r)
    ensures Stripped(s) ==> r == s
  {
    var t := TrimStart(s);
    assert Stripped(s) ==> t == s;
    TrimEnd(t)
  }

  /** `strip` removes whitespace at the ends only: what it leaves is a slice of its input with nothing but whitespace around it. */
  lemma StripIsSlice(s: string)
    ensures exists i :: OccursAt(s, Strip(s), i)
                        && forall k :: 0 <= k < |s| && (k < i || i + |Strip(s)| <= k) ==> IsSpace(s[k])
  {
    var t := TrimStart(s);
    var r := TrimEnd(t);
    assert r == Strip(s);
    var i := |s| - |t|;
    assert t == s[i..];
    assert r == t[..|r|];
    forall k | 0 <= k < |s| && (k < i || i + |r| <= k)
      ensures IsSpace(s[k])
    {
      if i + |r| <= k {
        assert s[k] == t[k - i] && |r| <= k - i < |t|;
      }
    }
    assert s[i..i + |r|] == r;
    assert OccursAt(s, r, i);
  }

  /** `strip` only removes characters, so it cannot create an occurrence of a pattern. */
  lemma StripKeepsAbsence(s: string, pat: string)
    requires !Contains(s, pat)
    ensures !Contains(Strip(s), pat)
  {
    StripIsSlice(s);
    var lo :| OccursAt(s, Strip(s), lo);
    AbsentFromSlice(s, pat, Strip(s), lo);
  }
}

/**
 The three Python string operations the response flattener relies on:
 substring membership (`pat in s`), `sep.join(parts)` and `s.strip()`.
 */
module Strings {

  /** `pat` occurs in `s` starting at index `i`. */
  ghost predicate OccursAt(s: string, pat: string, i: int) {
    0 <= i && i + |pat| <= |s| && s[i..i + |pat|] == pat
  }

  /** Python's `pat in s` for strings: `pat` is a contiguous substring of `s`. */
  predicate Contains(s: string, pat: string)
    ensures Contains(s, pat) ==> |pat| <= |s|
    decreases |s|
  {
    pat <= s || (|s| > 0 && Contains(s[1..], pat))
  }

  /** Shifting: an occurrence in `t` is an occurrence in `u + t`, |u| places later. */
  lemma OccursAfterPrefix(u: string, t: string, pat: string, i: int)
    requires OccursAt(t, pat, i)
    ensures OccursAt(u + t, pat, |u| + i)
  {
    assert (u + t)[|u| + i..|u| + i + |pat|] == t[i..i + |pat|];
  }

  /** An occurrence at some index makes `Contains` hold. */
  lemma {:induction false} OccursImpliesContains(s: string, pat: string, i: int)
    requires OccursAt(s, pat, i)
    ensures Contains(s, pat)
    decreases i
  {
    if i == 0 {
      assert s[..|pat|] == pat;
    } else {
      assert s[1..][i - 1..i - 1 + |pat|] == s[i..i + |pat|];
      OccursImpliesContains(s[1..], pat, i - 1);
    }
  }

  /** `Contains` yields an index at which `pat` occurs. */
  lemma {:induction false} ContainsImpliesOccurs(s: string, pat: string) returns (i: int)
    requires Contains(s, pat)
    ensures OccursAt(s, pat, i)
    decreases |s|
  {
    if pat <= s {
      i := 0;
      assert s[0..|pat|] == pat;
    } else {
      var j := ContainsImpliesOccurs(s[1..], pat);
      OccursAfterPrefix(s[..1], s[1..], pat, j);
      assert s[..1] + s[1..] == s;
      i := j + 1;
    }
  }

  /** `Contains` holds exactly when there is an index at which `pat` occurs. */
  lemma ContainsIffOccurs(s: string, pat: string)
    ensures Contains(s, pat) <==> exists i :: OccursAt(s, pat, i)
  {
    if Contains(s, pat) {
      var i := ContainsImpliesOccurs(s, pat);
    }
    forall i | OccursAt(s, pat, i)
      ensures Contains(s, pat)
    {
      OccursImpliesContains(s, pat, i);
    }
  }

  /** An occurrence inside `u` is an occurrence inside any extension `u + t`. */
  lemma OccursBeforeSuffix(u: string, t: string, pat: string, i: int)
    requires OccursAt(u, pat, i)
    ensures OccursAt(u + t, pat, i)
  {
    assert (u + t)[i..i + |pat|] == u[i..i + |pat|];
  }

  /**
   A character that does not occur in `pat` cuts a string in two: `pat`
   occurs in `u + [c] + v` exactly when it occurs in `u` or in `v`.
   */
  lemma ContainsAroundChar(u: string, c: char, v: string, pat: string)
    requires c !in pat
    ensures Contains(u + [c] + v, pat) <==> Contains(u, pat) || Contains(v, pat)
  {
    var w := u + [c] + v;
    ContainsIffOccurs(w, pat);
    ContainsIffOccurs(u, pat);
    ContainsIffOccurs(v, pat);
    if Contains(w, pat) {
      var i :| OccursAt(w, pat, i);
      assert w[|u|] == c;
      if i + |pat| <= |u| {
        assert w[i..i + |pat|] == u[i..i + |pat|];
        assert OccursAt(u, pat, i);
      } else if i > |u| {
        assert w[i..i + |pat|] == v[i - |u| - 1..i - |u| - 1 + |pat|];
        assert OccursAt(v, pat, i - |u| - 1);
      }
    }
    if Contains(u, pat) {
      var i :| OccursAt(u, pat, i);
      OccursBeforeSuffix(u, [c] + v, pat, i);
      assert u + ([c] + v) == w;
    }
    if Contains(v, pat) {
      var i :| OccursAt(v, pat, i);
      OccursAfterPrefix(u + [c], v, pat, i);
    }
  }

  /**
   The characters Python's `str.isspace()` accepts, which are the ones
   `str.strip()` with no argument removes: tab through carriage return,
   the four information separators, space, NEL, no-break space, and the
   Unicode space separators and line/paragraph separators.
   */
  predicate IsSpace(c: char)
    ensures c in " \t\n\r\U{0B}\U{0C}" ==> IsSpace(c)
    ensures '!' <= c <= '~' ==> !IsSpace(c)
  {
    || ('\t' <= c <= '\r')
    || ('\U{1C}' <= c <= '\U{1F}')
    || c == ' '
    || c == '\U{85}'
    || c == '\U{A0}'
    || c == '\U{1680}'
    || ('\U{2000}' <= c <= '\U{200A}')
    || c == '\U{2028}'
    || c == '\U{2029}'
    || c == '\U{202F}'
    || c == '\U{205F}'
    || c == '\U{3000}'
  }

  ghost predicate AllSpace(s: string) {
    forall k :: 0 <= k < |s| ==> IsSpace(s[k])
  }

  /** Neither the first nor the last character is whitespace. */
  predicate IsTrimmed(s: string) {
    |s| == 0 || (!IsSpace(s[0]) && !IsSpace(s[|s| - 1]))
  }

  /** Length of the longest all-whitespace prefix of `s`. */
  function LeadingSpaces(s: string): (n: nat)
    ensures n <= |s|
    ensures AllSpace(s[..n])
    ensures n < |s| ==> !IsSpace(s[n])
  {
    if |s| > 0 && IsSpace(s[0]) then
      var m := LeadingSpaces(s[1..]);
      assert forall k :: 1 <= k < 1 + m ==> s[k] == s[1..][k - 1];
      1 + m
    else
      0
  }

  /** Length of the longest all-whitespace suffix of `s`. */
  function TrailingSpaces(s: string): (n: nat)
    ensures n <= |s|
    ensures AllSpace(s[|s| - n..])
    ensures n < |s| ==> !IsSpace(s[|s| - 1 - n])
  {
    if |s| > 0 && IsSpace(s[|s| - 1]) then
      var m := TrailingSpaces(s[..|s| - 1]);
      assert forall k :: |s| - 1 - m <= k < |s| - 1 ==> s[k] == s[..|s| - 1][k];
      1 + m
    else
      0
  }

  /**
   `r` is what remains of `s` after cutting an all-whitespace prefix of
   length `i` and an all-whitespace suffix.
   */
  ghost predicate Framed(s: string, r: string, i: int) {
    OccursAt(s, r, i) && AllSpace(s[..i]) && AllSpace(s[i + |r|..])
  }

  /** Python's `s.strip()`. */
  function Strip(s: string): (r: string)
    ensures IsTrimmed(r)
    ensures Framed(s, r, LeadingSpaces(s))
    ensures r == [] <==> AllSpace(s)
  {
    var a := LeadingSpaces(s);
    if a == |s| then
      assert s[..a] == s;
      []
    else
      var b := |s| - TrailingSpaces(s);
      assert !IsSpace(s[a]);
      assert a < b;
      s[a..b]
  }

  /**
   Strip is fully determined by its contract: any trimmed `r` that is `s`
   with whitespace cut from both ends is `Strip(s)`.
   */
  lemma StripUnique(s: string, r: string, i: int)
    requires Framed(s, r, i)
    requires IsTrimmed(r)
    ensures r == Strip(s)
  {
    var a := LeadingSpaces(s);
    if |r| == 0 {
      assert s == s[..i] + s[i..];
      assert AllSpace(s);
    } else {
      assert s[i] == r[0];
      assert i == a;
      var t := TrailingSpaces(s);
      var j := i + |r|;
      assert s[j - 1] == r[|r| - 1];
      assert j == |s| - t;
      assert !AllSpace(s) by {
        assert !IsSpace(s[i]);
      }
    }
  }

  /** Whitespace put in front of a string makes no difference once stripped. */
  lemma StripIgnoresSpacePrefix(w: string, x: string)
    requires AllSpace(w)
    ensures Strip(w + x) == Strip(x)
  {
    var r := Strip(x);
    var i := LeadingSpaces(x);
    OccursAfterPrefix(w, x, r, i);
    assert (w + x)[..|w| + i] == w + x[..i];
    assert (w + x)[|w| + i + |r|..] == x[i + |r|..];
    assert Framed(w + x, r, |w| + i);
    StripUnique(w + x, r, |w| + i);
  }

  /** Whitespace put after a string makes no difference once stripped. */
  lemma StripIgnoresSpaceSuffix(x: string, w: string)
    requires AllSpace(w)
    ensures Strip(x + w) == Strip(x)
  {
    var r := Strip(x);
    var i := LeadingSpaces(x);
    assert (x + w)[i..i + |r|] == x[i..i + |r|];
    assert (x + w)[..i] == x[..i];
    assert (x + w)[i + |r|..] == x[i + |r|..] + w;
    assert Framed(x + w, r, i);
    StripUnique(x + w, r, i);
  }

  /**
   With a whitespace separator, the stripped join of `a + b` is the
   stripped text of `a`'s join, one separator, then `b`'s join, also when
   `a` or `b` is empty.
   */
  lemma StripJoinSplit(sep: string, a: seq<string>, b: seq<string>)
    requires AllSpace(sep)
    ensures Strip(JoinWith(sep, a + b)) == Strip(JoinWith(sep, a) + sep + JoinWith(sep, b))
  {
    if |a| > 0 && |b| > 0 {
      JoinAppend(sep, a, b);
    } else if |a| > 0 {
      assert a + b == a;
      assert JoinWith(sep, a) + sep + JoinWith(sep, b) == JoinWith(sep, a) + sep;
      StripIgnoresSpaceSuffix(JoinWith(sep, a), sep);
    } else {
      assert a + b == b;
      assert JoinWith(sep, a) + sep + JoinWith(sep, b) == sep + JoinWith(sep, b);
      StripIgnoresSpacePrefix(sep, JoinWith(sep, b));
    }
  }

  /** Stripping twice is the same as stripping once. */
  lemma StripIdempotent(s: string)
    ensures Strip(Strip(s)) == Strip(s)
  {
    var r := Strip(s);
    assert r[0..|r|] == r;
    assert Framed(r, r, 0);
    StripUnique(r, r, 0);
  }

  /** Python's `sep.join(parts)`. */
  function JoinWith(sep: string, parts: seq<string>): (r: string)
    ensures |parts| == 0 ==> r == ""
    ensures |parts| > 0 ==> |r| == TotalLength(parts) + (|parts| - 1) * |sep|
    ensures |parts| > 0 ==> parts[0] <= r
  {
    if |parts| == 0 then ""
    else if |parts| == 1 then parts[0]
    else parts[0] + sep + JoinWith(sep, parts[1..])
  }

  /** Sum of the lengths of `parts`. */
  function TotalLength(parts: seq<string>): nat {
    if |parts| == 0 then 0 else |parts[0]| + TotalLength(parts[1..])
  }

  /** Index in `JoinWith(sep, parts)` at which `parts[k]` begins. */
  function PartOffset(sep: string, parts: seq<string>, k: nat): nat
    requires k < |parts|
  {
    if k == 0 then 0 else |parts[0]| + |sep| + PartOffset(sep, parts[1..], k - 1)
  }

  /**
   Every part appears verbatim in the joined string, at its offset, and
   later parts start strictly after earlier parts end.
   */
  lemma {:induction false} JoinKeepsParts(sep: string, parts: seq<string>, k: nat)
    requires k < |parts|
    ensures OccursAt(JoinWith(sep, parts), parts[k], PartOffset(sep, parts, k))
    ensures k + 1 < |parts| ==>
              PartOffset(sep, parts, k) + |parts[k]| + |sep| == PartOffset(sep, parts, k + 1)
  {
    var j := JoinWith(sep, parts);
    if k == 0 {
      assert j[0..|parts[0]|] == parts[0];
    } else {
      var rest := parts[1..];
      JoinKeepsParts(sep, rest, k - 1);
      assert rest[k - 1] == parts[k];
      OccursAfterPrefix(parts[0] + sep, JoinWith(sep, rest), parts[k], PartOffset(sep, rest, k - 1));
    }
  }

  /** Worked example: three fragments joined with a blank line between neighbours. */
  lemma JoinExample()
    ensures JoinWith("\n\n", ["A", "B", "C"]) == "A\n\nB\n\nC"
  {
    assert ["A", "B", "C"][1..] == ["B", "C"];
    assert ["B", "C"][1..] == ["C"];
  }

  /** Joining a concatenation puts one separator between the two joins. */
  lemma {:induction false} JoinAppend(sep: string, a: seq<string>, b: seq<string>)
    requires |a| > 0 && |b| > 0
    ensures JoinWith(sep, a + b) == JoinWith(sep, a) + sep + JoinWith(sep, b)
    decreases |a|
  {
    if |a| == 1 {
      assert (a + b)[1..] == b;
    } else {
      JoinAppend(sep, a[1..], b);
      assert (a + b)[1..] == a[1..] + b;
    }
  }
}

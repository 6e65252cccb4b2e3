/** Character-level helpers shared by the scanners: pattern occurrence,
    the "advance until the pattern" loop the source writes out by hand,
    literal replace-all, whitespace trimming and the string order used
    for sorting titles.
 */
module Text {
  import opened Results

  /** `pat` occurs in `s` starting at offset `i`. */
  predicate OccursAt(s: string, pat: string, i: nat) {
    i + |pat| <= |s| && s[i..i + |pat|] == pat
  }

  /** `s.indexOf(pat) != -1`. */
  predicate Contains(s: string, pat: string) {
    exists i | 0 <= i <= |s| - |pat| :: OccursAt(s, pat, i)
  }

  /** `j` is the first offset at or after `k` where `pat` occurs. */
  predicate IsFirstFrom(s: string, pat: string, k: nat, j: nat) {
    && k <= j
    && OccursAt(s, pat, j)
    && forall m: nat :: k <= m < j ==> !OccursAt(s, pat, m)
  }

  /** `pat` occurs nowhere at or after offset `k`. */
  ghost predicate NoneFrom(s: string, pat: string, k: nat) {
    forall m: nat :: k <= m ==> !OccursAt(s, pat, m)
  }

  /** The scanning loop used throughout the parser: starting at `k`, the
      index moves right while the `|pat|` characters at it differ from
      `pat` and it is below the last character. The comparison reads
      those characters before the bound is tested, so running off the
      end raises. A one-character pattern that never occurs stops on the
      last character instead of raising. */
  function AdvanceTo(s: string, pat: string, k: nat): (r: Result<nat>)
    decreases |s| - k
    ensures r.Ok? ==> k <= r.value <= |s|
    ensures r.Ok? ==> forall m: nat :: k <= m < r.value ==> !OccursAt(s, pat, m)
    ensures r.Ok? ==> OccursAt(s, pat, r.value) || (|pat| == 1 && r.value + 1 == |s|)
    ensures forall j: nat :: IsFirstFrom(s, pat, k, j) ==> r == Ok(j)
    ensures NoneFrom(s, pat, k) ==>
              r == (if |pat| == 1 && k < |s| then Ok(|s| - 1) else Err(IndexOutOfBounds))
  {
    if k + |pat| > |s| then Err(IndexOutOfBounds)
    else if s[k..k + |pat|] == pat then
      assert OccursAt(s, pat, k);
      Ok(k)
    else if k < |s| - 1 then AdvanceTo(s, pat, k + 1)
    else Ok(k)
  }

  /** An occurrence in a suffix is an occurrence in the whole string,
      shifted by the suffix's start. */
  lemma OccursInSuffix(s: string, pat: string, e: nat, j: nat)
    requires e <= |s|
    ensures OccursAt(s[e..], pat, j) <==> OccursAt(s, pat, e + j)
  {
    if j + |pat| <= |s| - e {
      assert s[e..][j..j + |pat|] == s[e + j..e + j + |pat|];
    }
  }

  /** Java's `substring(b, e)`: raises unless `b <= e <= |s|`. */
  function Substring(s: string, b: nat, e: nat): (r: Result<string>)
    ensures r.Ok? <==> b <= e <= |s|
    ensures r.Ok? ==> |r.value| == e - b && forall i :: 0 <= i < |r.value| ==> r.value[i] == s[b + i]
  {
    if b <= e <= |s| then Ok(s[b..e]) else Err(IndexOutOfBounds)
  }

  /** Literal, left-to-right, non-overlapping replacement of every
      occurrence of `pat` by `rep` (a `replaceAll` whose pattern has no
      regular-expression metacharacters). */
  function ReplaceAll(s: string, pat: string, rep: string): (r: string)
    requires |pat| > 0
    decreases |s|
    ensures |rep| <= |pat| ==> |r| <= |s|
  {
    if |s| < |pat| then s
    else if s[..|pat|] == pat then rep + ReplaceAll(s[|pat|..], pat, rep)
    else [s[0]] + ReplaceAll(s[1..], pat, rep)
  }

  /** Replacing only copies characters of the text or of `rep`. */
  lemma {:induction false} ReplaceAllKeepsChars(s: string, pat: string, rep: string)
    requires |pat| > 0
    ensures forall k :: 0 <= k < |ReplaceAll(s, pat, rep)| ==>
              ReplaceAll(s, pat, rep)[k] in s || ReplaceAll(s, pat, rep)[k] in rep
    decreases |s|
  {
    var r := ReplaceAll(s, pat, rep);
    if |s| >= |pat| {
      if s[..|pat|] == pat {
        var t := s[|pat|..];
        ReplaceAllKeepsChars(t, pat, rep);
        forall k | 0 <= k < |r| ensures r[k] in s || r[k] in rep {
          if k < |rep| {
            assert r[k] == rep[k];
          } else {
            assert r[k] == ReplaceAll(t, pat, rep)[k - |rep|];
            assert forall c :: c in t ==> c in s;
          }
        }
      } else {
        var t := s[1..];
        ReplaceAllKeepsChars(t, pat, rep);
        forall k | 1 <= k < |r| ensures r[k] in s || r[k] in rep {
          assert r[k] == ReplaceAll(t, pat, rep)[k - 1];
          assert forall c :: c in t ==> c in s;
        }
      }
    }
  }

  /** A text without the pattern is left as it is. */
  lemma {:induction false} ReplaceAllNoMatch(s: string, pat: string, rep: string)
    requires |pat| > 0 && forall i: nat :: !OccursAt(s, pat, i)
    ensures ReplaceAll(s, pat, rep) == s
    decreases |s|
  {
    if |s| >= |pat| {
      assert !OccursAt(s, pat, 0);
      forall i: nat ensures !OccursAt(s[1..], pat, i) {
        OccursInSuffix(s, pat, 1, i);
      }
      ReplaceAllNoMatch(s[1..], pat, rep);
    }
  }

  /** Replacing starts at the first occurrence: the text before it is
      copied, the occurrence becomes `rep`, and replacing goes on just
      past it. */
  lemma {:induction false} ReplaceAllFirst(s: string, pat: string, rep: string, i: nat)
    requires |pat| > 0 && IsFirstFrom(s, pat, 0, i)
    ensures ReplaceAll(s, pat, rep) == s[..i] + rep + ReplaceAll(s[i + |pat|..], pat, rep)
    decreases i, 1
  {
    if i == 0 {
      ReplaceAllAtFront(s, pat, rep);
    } else {
      ReplaceAllLater(s, pat, rep, i);
    }
  }

  /** An occurrence at the front becomes `rep`. */
  lemma ReplaceAllAtFront(s: string, pat: string, rep: string)
    requires |pat| > 0 && OccursAt(s, pat, 0)
    ensures ReplaceAll(s, pat, rep) == s[..0] + rep + ReplaceAll(s[0 + |pat|..], pat, rep)
  {
    assert s[..|pat|] == pat;
    assert s[..0] + rep == rep;
  }

  /** A first occurrence past the front: the first character is copied
      and the rest follows from the tail. */
  lemma {:induction false} ReplaceAllLater(s: string, pat: string, rep: string, i: nat)
    requires |pat| > 0 && 0 < i && IsFirstFrom(s, pat, 0, i)
    ensures ReplaceAll(s, pat, rep) == s[..i] + rep + ReplaceAll(s[i + |pat|..], pat, rep)
    decreases i, 0
  {
    var tail := s[1..];
    ReplaceAllSkips(s, pat, rep);
    FirstInTail(s, pat, i);
    ReplaceAllFirst(tail, pat, rep, i - 1);
    SameReplacement(tail[i - 1 + |pat|..], s[i + |pat|..], pat, rep);
    ConsOntoSplit(s, i, rep, ReplaceAll(s, pat, rep), ReplaceAll(tail, pat, rep),
                  ReplaceAll(tail[i - 1 + |pat|..], pat, rep), ReplaceAll(s[i + |pat|..], pat, rep));
  }

  /** Equal texts have equal replacements. */
  lemma SameReplacement(a: string, b: string, pat: string, rep: string)
    requires |pat| > 0 && a == b
    ensures ReplaceAll(a, pat, rep) == ReplaceAll(b, pat, rep)
  {
  }

  /** Putting back the first character of a text in front of a split of
      its tail. */
  lemma ConsOntoSplit(s: string, i: nat, mid: string, whole: string, t: string, rest: string, rest': string)
    requires 0 < i <= |s|
    requires whole == [s[0]] + t && t == s[1..][..i - 1] + mid + rest && rest == rest'
    ensures whole == s[..i] + mid + rest'
  {
    assert [s[0]] + s[1..][..i - 1] == s[..i];
  }

  /** With no occurrence at the front, the first character is copied. */
  lemma ReplaceAllSkips(s: string, pat: string, rep: string)
    requires |pat| > 0 && |pat| <= |s| && !OccursAt(s, pat, 0)
    ensures ReplaceAll(s, pat, rep) == [s[0]] + ReplaceAll(s[1..], pat, rep)
  {
    assert s[..|pat|] != pat;
  }

  /** The first occurrence after the front is the first one in the tail. */
  lemma FirstInTail(s: string, pat: string, i: nat)
    requires 0 < i && IsFirstFrom(s, pat, 0, i)
    ensures IsFirstFrom(s[1..], pat, 0, i - 1)
  {
    OccursInSuffix(s, pat, 1, i - 1);
    forall m: nat | m < i - 1 ensures !OccursAt(s[1..], pat, m) {
      OccursInSuffix(s, pat, 1, m);
    }
  }

  /** Java's `Character` test used by `String.trim()`. */
  predicate IsTrimmed(c: char) {
    c <= ' '
  }

  /** Drops leading characters at or below U+0020. */
  function TrimStart(s: string): (r: string)
    decreases |s|
    ensures |r| <= |s| && r == s[|s| - |r|..]
    ensures r == [] || !IsTrimmed(r[0])
    ensures forall i :: 0 <= i < |s| - |r| ==> IsTrimmed(s[i])
  {
    if |s| > 0 && IsTrimmed(s[0]) then TrimStart(s[1..]) else s
  }

  /** Drops trailing characters at or below U+0020. */
  function TrimEnd(s: string): (r: string)
    decreases |s|
    ensures |r| <= |s| && r == s[..|r|]
    ensures r == [] || !IsTrimmed(r[|r| - 1])
    ensures forall i :: |r| <= i < |s| ==> IsTrimmed(s[i])
  {
    if |s| > 0 && IsTrimmed(s[|s| - 1]) then TrimEnd(s[..|s| - 1]) else s
  }

  /** Java's `String.trim()`. */
  function Trim(s: string): (r: string)
    ensures |r| <= |s|
    ensures r == [] || (!IsTrimmed(r[0]) && !IsTrimmed(r[|r| - 1]))
    ensures (forall i :: 0 <= i < |s| ==> IsTrimmed(s[i])) <==> r == []
  {
    var t := TrimStart(s);
    var r := TrimEnd(t);
    assert r != [] ==> r[0] == t[0];
    assert r == [] ==> t == [];
    r
  }

  /** Trimming keeps one contiguous slice of the text, with only
      characters at or below U+0020 on either side of it. */
  lemma TrimIsSlice(s: string)
    ensures exists a, b :: 0 <= a <= b <= |s| && Trim(s) == s[a..b] &&
              (forall i :: 0 <= i < a ==> IsTrimmed(s[i])) &&
              (forall i :: b <= i < |s| ==> IsTrimmed(s[i]))
  {
    var t := TrimStart(s);
    var r := TrimEnd(t);
    var a := |s| - |t|;
    var b := a + |r|;
    assert Trim(s) == r;
    SliceOfSlice(s, a, |r|);
    forall i | b <= i < |s| ensures IsTrimmed(s[i]) {
      assert s[i] == t[i - a];
    }
    assert 0 <= a <= b <= |s| && Trim(s) == s[a..b] &&
           (forall i :: 0 <= i < a ==> IsTrimmed(s[i])) &&
           (forall i :: b <= i < |s| ==> IsTrimmed(s[i]));
  }

  /** A prefix of a suffix is a slice. */
  lemma SliceOfSlice(s: string, a: nat, n: nat)
    requires a + n <= |s|
    ensures s[a..][..n] == s[a..a + n]
  {
  }

  /** `a.compareTo(b) <= 0` for Java strings: lexicographic by
      character, a proper prefix sorting first. */
  predicate LexLe(a: string, b: string)
    decreases |a|
  {
    |a| == 0 || (|b| > 0 && (a[0] < b[0] || (a[0] == b[0] && LexLe(a[1..], b[1..]))))
  }

  /** The string order is total: any two titles can be compared. */
  lemma {:induction false} LexLeTotal(a: string, b: string)
    ensures LexLe(a, b) || LexLe(b, a)
    decreases |a|
  {
    if |a| > 0 && |b| > 0 && a[0] == b[0] {
      LexLeTotal(a[1..], b[1..]);
    }
  }

  /** The string order is antisymmetric: only equal strings compare equal. */
  lemma {:induction false} LexLeAntisymmetric(a: string, b: string)
    requires LexLe(a, b) && LexLe(b, a)
    ensures a == b
    decreases |a|
  {
    if |a| > 0 {
      LexLeAntisymmetric(a[1..], b[1..]);
      assert a == [a[0]] + a[1..];
      assert b == [b[0]] + b[1..];
    }
  }

  /** The string order is transitive. */
  lemma {:induction false} LexLeTransitive(a: string, b: string, c: string)
    requires LexLe(a, b) && LexLe(b, c)
    ensures LexLe(a, c)
    decreases |a|
  {
    if |a| > 0 && a[0] == b[0] && b[0] == c[0] {
      LexLeTransitive(a[1..], b[1..], c[1..]);
    }
  }
}

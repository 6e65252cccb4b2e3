/** Text clean-up applied to every extracted fragment: junk trimming
    (`cleanString`), entity decoding and markup stripping
    (`convertSpecialChars`) and removal of one anchor opening tag
    (`removeHTMLLinks`).
 */
module Sanitizer {
  import opened Results
  import opened Text

  /** Characters `cleanString` strips from the end of a fragment. */
  const TrailingJunk: set<char> := {' ', '/', '<', '"'}

  /** Characters `cleanString` strips from the start of a fragment. */
  const LeadingJunk: set<char> := {'<', '/', '>', ' ', '"'}

  /** Every character of `s` lies in `cs`. */
  predicate AllIn(s: string, cs: set<char>) {
    forall i :: 0 <= i < |s| ==> s[i] in cs
  }

  /** The first loop of `cleanString`: drop trailing junk. It reads the
      last character of a string that may have become empty, so a
      fragment made only of trailing junk raises. */
  function DropTrailing(s: string): (r: Result<string>)
    decreases |s|
    ensures r.Err? <==> AllIn(s, TrailingJunk)
    ensures r.Err? ==> r.fault == IndexOutOfBounds
    ensures r.Ok? ==> && 0 < |r.value| <= |s|
                      && r.value == s[..|r.value|]
                      && r.value[|r.value| - 1] !in TrailingJunk
                      && forall i :: |r.value| <= i < |s| ==> s[i] in TrailingJunk
  {
    if |s| == 0 then Err(IndexOutOfBounds)
    else if s[|s| - 1] in TrailingJunk then
      var r := DropTrailing(s[..|s| - 1]);
      assert forall i :: 0 <= i < |s| - 1 ==> s[..|s| - 1][i] == s[i];
      r
    else Ok(s)
  }

  /** The second loop of `cleanString`: drop leading junk; a fragment
      made only of leading junk raises. */
  function DropLeading(s: string): (r: Result<string>)
    decreases |s|
    ensures r.Err? <==> AllIn(s, LeadingJunk)
    ensures r.Err? ==> r.fault == IndexOutOfBounds
    ensures r.Ok? ==> && 0 < |r.value| <= |s|
                      && r.value == s[|s| - |r.value|..]
                      && r.value[0] !in LeadingJunk
                      && forall i :: 0 <= i < |s| - |r.value| ==> s[i] in LeadingJunk
  {
    if |s| == 0 then Err(IndexOutOfBounds)
    else if s[0] in LeadingJunk then
      var r := DropLeading(s[1..]);
      assert forall i :: 1 <= i < |s| ==> s[1..][i - 1] == s[i];
      r
    else Ok(s)
  }

  /** `s` is longer than `p` and starts with it: the guard
      `s.length() > p.length() && s.substring(0, p.length()).equals(p)`. */
  predicate LongerWithPrefix(s: string, p: string) {
    |s| > |p| && s[..|p|] == p
  }

  /** The three dangling-prefix checks at the end of `cleanString`,
      each applied to the output of the previous one: `href=` goes
      together with the character after it (the opening quote), then
      `![CDATA[`, then `![CDATA[<p>`. The last check sees the text after
      the `![CDATA[` drop, so it only fires on a doubled `![CDATA[`. */
  function DropDanglingPrefixes(s: string): (r: string)
    ensures |r| <= |s| && r == s[|s| - |r|..]
    ensures var u := if LongerWithPrefix(s, "href=") then s[6..] else s;
            && (!LongerWithPrefix(u, "![CDATA[") ==> r == u)
            && (LongerWithPrefix(u, "![CDATA[") && !LongerWithPrefix(u[8..], "![CDATA[<p>") ==> r == u[8..])
            && (LongerWithPrefix(u, "![CDATA[") && LongerWithPrefix(u[8..], "![CDATA[<p>") ==> r == u[19..])
  {
    var a := if LongerWithPrefix(s, "href=") then s[6..] else s;
    var b := if LongerWithPrefix(a, "![CDATA[") then a[8..] else a;
    var c := if LongerWithPrefix(b, "![CDATA[<p>") then b[11..] else b;
    assert LongerWithPrefix(a, "![CDATA[<p>") ==> LongerWithPrefix(a, "![CDATA[") by {
      if LongerWithPrefix(a, "![CDATA[<p>") {
        assert a[..8] == a[..11][..8];
      }
    }
    assert LongerWithPrefix(a, "![CDATA[") && LongerWithPrefix(a[8..], "![CDATA[<p>") ==> c == a[19..] by {
      if LongerWithPrefix(a, "![CDATA[") && LongerWithPrefix(a[8..], "![CDATA[<p>") {
        assert a[8..][11..] == a[19..];
      }
    }
    assert c == s[|s| - |c|..];
    c
  }

  /** A CDATA opening left in front of a fragment is dropped. */
  lemma CDataDropped(x: string)
    requires x != [] && !LongerWithPrefix(x, "![CDATA[<p>")
    ensures DropDanglingPrefixes("![CDATA[" + x) == x
  {
    var s := "![CDATA[" + x;
    assert !LongerWithPrefix(s, "href=") by { assert s[0] == '!'; }
    assert LongerWithPrefix(s, "![CDATA[") by { assert s[..8] == "![CDATA["; }
    assert s[8..] == x;
  }

  /** A CDATA section opening with a paragraph loses only the
      `![CDATA[`: the `<p>` stays, because the eleven-character check
      runs after the eight-character one. */
  lemma CDataParagraphKeepsTag(x: string)
    ensures DropDanglingPrefixes("![CDATA[<p>" + x) == "<p>" + x
  {
    var y := "<p>" + x;
    assert "![CDATA[<p>" + x == "![CDATA[" + y;
    assert !LongerWithPrefix(y, "![CDATA[<p>") by { assert y[0] == '<'; }
    CDataDropped(y);
  }

  /** The span `t[a..b]` that the two junk loops of `cleanString` leave:
      everything before `a` is leading junk and `t[a]` is not, everything
      from `b` on is trailing junk and `t[b - 1]` is not. At most one
      pair `a`, `b` fits a given text. */
  predicate JunkSpan(t: string, a: int, b: int) {
    && 0 <= a < b <= |t|
    && (forall i :: 0 <= i < a ==> t[i] in LeadingJunk) && t[a] !in LeadingJunk
    && (forall i :: b <= i < |t| ==> t[i] in TrailingJunk) && t[b - 1] !in TrailingJunk
  }

  /** `cleanString` on a non-null fragment. A blank fragment becomes
      empty; otherwise the fragment must keep a character outside the
      leading-junk set, or the stripping loops run off the end. The
      result is the trimmed text without its junk ends, with the
      dangling prefixes dropped. */
  function CleanString(s: string): (r: Result<string>)
    ensures Trim(s) == [] ==> r == Ok([])
    ensures r.Err? <==> Trim(s) != [] && AllIn(Trim(s), LeadingJunk)
    ensures r.Err? ==> r.fault == IndexOutOfBounds
    ensures r.Ok? ==> |r.value| <= |s|
    ensures r.Ok? && r.value != [] ==> r.value[|r.value| - 1] !in TrailingJunk
    ensures r.Ok? && Trim(s) != [] ==>
              exists a, b :: JunkSpan(Trim(s), a, b) && r.value == DropDanglingPrefixes(Trim(s)[a..b])
  {
    var t := Trim(s);
    if |t| == 0 then Ok(t)
    else
      var a :- DropTrailing(t);
      JunkAfterTrailing(t, a);
      var b :- DropLeading(a);
      JunkSpanOfDrops(t, a, b);
      Ok(DropDanglingPrefixes(b))
  }

  /** Dropping the trailing junk leaves leading junk only if the whole
      text was leading junk. */
  lemma JunkAfterTrailing(t: string, a: string)
    requires DropTrailing(t) == Ok(a)
    ensures AllIn(a, LeadingJunk) <==> AllIn(t, LeadingJunk)
  {
    assert TrailingJunk <= LeadingJunk;
    assert forall i :: 0 <= i < |a| ==> a[i] == t[i];
  }

  /** The two junk loops leave the junk span of the text. */
  lemma JunkSpanOfDrops(t: string, a: string, b: string)
    requires DropTrailing(t) == Ok(a) && DropLeading(a) == Ok(b)
    ensures JunkSpan(t, |a| - |b|, |a|) && b == t[|a| - |b|..|a|]
    ensures b[|b| - 1] !in TrailingJunk
  {
    var lo := |a| - |b|;
    assert b == t[lo..|a|] by {
      assert a == t[..|a|] && b == a[lo..];
    }
    assert b[|b| - 1] == a[|a| - 1] == t[|a| - 1];
    assert b[0] == a[lo] == t[lo];
    forall i | 0 <= i < lo ensures t[i] in LeadingJunk {
      assert t[i] == a[i];
    }
  }

  /** The attribute form of an artwork tag, `<itunes:image href="X"/>`,
      leaves ` href="X"` before the terminator; cleaning it yields `X`
      itself when `X` is not empty, does not open with `![CDATA[` and
      does not end in trailing junk. */
  lemma CleanHrefAttribute(x: string)
    requires x != [] && !LongerWithPrefix(x, "![CDATA[")
    requires x[|x| - 1] !in TrailingJunk
    ensures CleanString(" href=\"" + x + "\"") == Ok(x)
  {
    HrefTrim(x);
    HrefDropTrailing(x);
    HrefDropLeading(x);
    HrefDropPrefix(x);
  }

  lemma HrefTrim(x: string)
    ensures Trim(" href=\"" + x + "\"") == "href=\"" + x + "\""
  {
    var t := "href=\"" + x + "\"";
    var s := " href=\"" + x + "\"";
    assert s[1..] == t;
    assert t[0] == 'h';
    assert TrimStart(s) == t;
    assert t[|t| - 1] == '"';
  }

  lemma HrefDropTrailing(x: string)
    requires x != [] && x[|x| - 1] !in TrailingJunk
    ensures DropTrailing("href=\"" + x + "\"") == Ok("href=\"" + x)
  {
    var a := "href=\"" + x;
    var t := a + "\"";
    assert t[..|t| - 1] == a;
    assert a[|a| - 1] == x[|x| - 1];
  }

  lemma HrefDropLeading(x: string)
    ensures DropLeading("href=\"" + x) == Ok("href=\"" + x)
  {
    var a := "href=\"" + x;
    assert a[0] == 'h';
  }

  lemma HrefDropPrefix(x: string)
    requires !LongerWithPrefix(x, "![CDATA[")
    ensures DropDanglingPrefixes("href=\"" + x) == x
  {
    var a := "href=\"" + x;
    assert a[..5] == "href=";
    assert a[6..] == x;
  }

  // ---------------------------------------------------------------
  // convertSpecialChars
  // ---------------------------------------------------------------

  /** The literal substitutions applied before the ASCII filter, in
      source order. */
  const EntityTable: seq<(string, string)> := [
    ("\U{A9}", ""),
    ("&amp;", "&"),
    ("&#8211;", "--"),
    ("&#", "#"),
    ("\U{B3}", ""),
    ("&apos;", "'"),
    ("#039;", "'"),
    ("&quot;", "'")
  ]

  /** The markup fragments deleted after the ASCII filter, in source order. */
  const MarkupTable: seq<(string, string)> := [
    ("<br>", ""),
    ("<em>", ""),
    ("<p>", ""),
    ("<div>", ""),
    ("]]>", ""),
    ("div>", "")
  ]

  /** The opening of an anchor tag, `<a href="`. */
  const AnchorOpen: string := "<a href=\""

  /** The end of an anchor opening tag, `">`. */
  const AnchorClose: string := "\">"

  /** A substitution table whose patterns are non-empty and never
      shorter than their replacements. */
  predicate Shrinking(table: seq<(string, string)>) {
    forall k :: 0 <= k < |table| ==> 0 < |table[k].0| && |table[k].1| <= |table[k].0|
  }

  /** A substitution table whose replacements are all empty. */
  predicate Deleting(table: seq<(string, string)>) {
    forall k :: 0 <= k < |table| ==> table[k].1 == []
  }

  /** Both tables of `convertSpecialChars` only shrink the text, and
      the markup table only deletes. */
  lemma TablesShrink()
    ensures Shrinking(EntityTable) && Shrinking(MarkupTable) && Deleting(MarkupTable)
  {
  }

  /** A character of the 7-bit ASCII range. */
  predicate IsAscii(c: char) {
    c as int <= 0x7F
  }

  /** Every character of `s` is ASCII. */
  predicate AllAscii(s: string) {
    forall i :: 0 <= i < |s| ==> IsAscii(s[i])
  }

  /** Applies each substitution of `table` to the whole string, in order. */
  function ApplyTable(s: string, table: seq<(string, string)>): (r: string)
    requires Shrinking(table)
    decreases |table|
    ensures |r| <= |s|
    ensures forall c :: c in r ==> c in s || exists k :: 0 <= k < |table| && c in table[k].1
    ensures Deleting(table) ==> forall c :: c in r ==> c in s
    ensures (forall k, i: nat :: 0 <= k < |table| ==> !OccursAt(s, table[k].0, i)) ==> r == s
  {
    if |table| == 0 then s
    else
      var s' := ReplaceAll(s, table[0].0, table[0].1);
      assert Shrinking(table[1..]) by {
        forall k | 0 <= k < |table[1..]| ensures 0 < |table[1..][k].0| && |table[1..][k].1| <= |table[1..][k].0| {
          assert table[1..][k] == table[k + 1];
        }
      }
      var r := ApplyTable(s', table[1..]);
      assert forall c :: c in r ==> c in s || exists k :: 0 <= k < |table| && c in table[k].1 by {
        forall c | c in r ensures c in s || exists k :: 0 <= k < |table| && c in table[k].1 {
          if c !in s' {
            var k :| 0 <= k < |table[1..]| && c in table[1..][k].1;
            assert table[1..][k] == table[k + 1];
          } else if c !in s {
            ReplaceAllKeepsChars(s, table[0].0, table[0].1);
            var j :| 0 <= j < |s'| && s'[j] == c;
            assert s'[j] in s || s'[j] in table[0].1;
          }
        }
      }
      assert (forall k, i: nat :: 0 <= k < |table| ==> !OccursAt(s, table[k].0, i)) ==> r == s by {
        if forall k, i: nat :: 0 <= k < |table| ==> !OccursAt(s, table[k].0, i) {
          assert forall i: nat :: !OccursAt(s, table[0].0, i);
          ReplaceAllNoMatch(s, table[0].0, table[0].1);
          forall k, i: nat | 0 <= k < |table[1..]| ensures !OccursAt(s, table[1..][k].0, i) {
            assert table[1..][k] == table[k + 1];
          }
        }
      }
      r
  }

  /** The regular expression `[^\u0000-\u007F]` replaced by nothing:
      every character above 0x7F is removed. */
  function DropNonAscii(s: string): (r: string)
    ensures AllAscii(r) && |r| <= |s|
    ensures forall c :: c in r ==> c in s
    ensures AllAscii(s) ==> r == s
    ensures |s| == 1 ==> r == if IsAscii(s[0]) then s else []
  {
    if |s| == 0 then s
    else
      var tail := DropNonAscii(s[1..]);
      if IsAscii(s[0]) then [s[0]] + tail else tail
  }

  /** The filter works character by character: filtering a
      concatenation filters each part. With the one-character cases this
      says the result is the ASCII characters of the input, in order. */
  lemma {:induction false} DropNonAsciiConcat(a: string, b: string)
    ensures DropNonAscii(a + b) == DropNonAscii(a) + DropNonAscii(b)
    decreases |a|
  {
    if a == [] {
      assert a + b == b;
    } else {
      assert (a + b)[0] == a[0] && (a + b)[1..] == a[1..] + b;
      DropNonAsciiConcat(a[1..], b);
    }
  }

  /** `removeHTMLLinks`: finds the first `<a href="` and the first `">`
      at or after it, and deletes the span from the first through the
      second. The anchor text and its `</a>` stay. Without a `">` the
      scanning loop runs off the end. */
  function RemoveHTMLLinks(s: string): (r: Result<string>)
    ensures r.Ok? ==> |r.value| <= |s|
    ensures r.Ok? ==> forall c :: c in r.value ==> c in s
  {
    if Contains(s, AnchorOpen) then
      var i :- AdvanceTo(s, AnchorOpen, 0);
      var j :- AdvanceTo(s, AnchorClose, i);
      SpliceOut(s, i, j)
    else
      SpliceOut(s, 0, 0)
  }

  /** The final step of `removeHTMLLinks`: keep `s[..i]` and everything
      after the two characters at `j`, when `j` is inside the string. */
  function SpliceOut(s: string, i: nat, j: nat): (r: Result<string>)
    requires i <= j
    ensures r.Ok? ==> |r.value| <= |s|
    ensures r.Ok? ==> forall c :: c in r.value ==> c in s
    ensures j + 2 <= |s| ==> r == Ok(s[..i] + s[j + 2..])
    ensures j >= |s| ==> r == Ok(s)
  {
    if j < |s| then
      var tail :- Substring(s, j + 2, |s|);
      assert tail == s[j + 2..];
      Ok(s[..i] + tail)
    else Ok(s)
  }

  /** What `removeHTMLLinks` does when an anchor is present: with `i`
      the first `<a href="` and `j` the first `">` at or after it, the
      result is the text before the anchor followed by the text after
      its opening tag; with no `">` after the anchor it raises. */
  lemma RemoveLinkSplice(s: string, i: nat)
    requires IsFirstFrom(s, AnchorOpen, 0, i)
    ensures forall j: nat :: IsFirstFrom(s, AnchorClose, i, j) ==> RemoveHTMLLinks(s) == Ok(s[..i] + s[j + 2..])
    ensures NoneFrom(s, AnchorClose, i) ==> RemoveHTMLLinks(s) == Err(IndexOutOfBounds)
  {
    assert Contains(s, AnchorOpen);
  }

  /** `convertSpecialChars`: null passes through; otherwise the entity
      table, the ASCII filter and the markup table are applied in order,
      and one anchor opening tag is removed when one remains. */
  function ConvertSpecialChars(s: Option<string>): (r: Result<Option<string>>)
    ensures s.None? ==> r == Ok(None)
    ensures r.Ok? ==> (r.value.Some? <==> s.Some?)
    ensures r.Ok? && s.Some? ==> AllAscii(r.value.value) && |r.value.value| <= |s.value|
  {
    match s
    case None => Ok(None)
    case Some(v) =>
      TablesShrink();
      var a := ApplyTable(v, EntityTable);
      var b := DropNonAscii(a);
      var c := ApplyTable(b, MarkupTable);
      assert AllAscii(c) by {
        forall i | 0 <= i < |c| ensures IsAscii(c[i]) {
          assert c[i] in c;
          var k :| 0 <= k < |b| && b[k] == c[i];
        }
      }
      if Contains(c, AnchorOpen) then
        var d :- RemoveHTMLLinks(c);
        assert AllAscii(d) by {
          forall i | 0 <= i < |d| ensures IsAscii(d[i]) {
            assert d[i] in d && d[i] in c;
            var k :| 0 <= k < |c| && c[k] == d[i];
          }
        }
        Ok(Some(d))
      else Ok(Some(c))
  }

  /** A character that takes part in no substitution, no markup and no
      anchor of `convertSpecialChars`: ASCII, and none of `&`, `#`, `;`,
      `<`, `>`. */
  predicate Inert(c: char) {
    IsAscii(c) && c != '&' && c != '#' && c != ';' && c != '<' && c != '>'
  }

  /** A pattern with a character that `s` lacks occurs nowhere in `s`. */
  lemma MissingCharBlocks(s: string, pat: string, j: nat)
    requires j < |pat| && forall i :: 0 <= i < |s| ==> s[i] != pat[j]
    ensures forall i: nat :: !OccursAt(s, pat, i)
  {
    forall i: nat ensures !OccursAt(s, pat, i) {
      if i + |pat| <= |s| {
        assert s[i..i + |pat|][j] == s[i + j];
      }
    }
  }

  /** Text whose characters are inert or `&`. */
  predicate InertOrAmpersand(s: string) {
    forall i :: 0 <= i < |s| ==> s[i] == '&' || Inert(s[i])
  }

  /** `&amp;` between two runs of ordinary text decodes to `&`, and
      nothing else changes. */
  lemma DecodesAmpersand(x: string, y: string)
    requires forall i :: 0 <= i < |x| ==> Inert(x[i])
    requires forall i :: 0 <= i < |y| ==> Inert(y[i])
    ensures ConvertSpecialChars(Some(x + "&amp;" + y)) == Ok(Some(x + "&" + y))
  {
    TablesShrink();
    var s := x + "&amp;" + y;
    var s1 := x + "&" + y;
    AmpersandEntityStage(x, y);
    InertJoin(x, y);
    assert AllAscii(s1);
    assert DropNonAscii(s1) == s1;
    NoMarkupLeft(s1);
  }

  /** The entity substitutions turn the one `&amp;` into `&`: the
      copyright sign before it does not occur, and no later pattern
      occurs in the decoded text. */
  lemma AmpersandEntityStage(x: string, y: string)
    requires forall i :: 0 <= i < |x| ==> Inert(x[i])
    requires forall i :: 0 <= i < |y| ==> Inert(y[i])
    ensures Shrinking(EntityTable) && ApplyTable(x + "&amp;" + y, EntityTable) == x + "&" + y
  {
    AmpersandReplaced(x, y);
    InertJoin(x, y);
    EntityStageFrom(x + "&amp;" + y, x + "&" + y);
  }

  /** The entity stage on a text where the first substitution changes
      nothing and the second yields inert text with ampersands. */
  lemma EntityStageFrom(s: string, s1: string)
    requires ReplaceAll(s, EntityTable[0].0, EntityTable[0].1) == s
    requires ReplaceAll(s, "&amp;", "&") == s1
    requires InertOrAmpersand(s1)
    ensures Shrinking(EntityTable) && ApplyTable(s, EntityTable) == s1
  {
    TablesShrink();
    NoLaterEntity(s1);
    var t1 := EntityTable[1..];
    ApplyTableHead(s, EntityTable);
    ApplyTableHead(s, t1);
    assert t1[0] == ("&amp;", "&") && t1[1..] == EntityTable[2..];
  }

  /** The first substitution of a table, then the rest. */
  lemma ApplyTableHead(s: string, table: seq<(string, string)>)
    requires Shrinking(table) && |table| > 0
    ensures Shrinking(table[1..])
    ensures ApplyTable(s, table) == ApplyTable(ReplaceAll(s, table[0].0, table[0].1), table[1..])
  {
    assert forall k :: 0 <= k < |table[1..]| ==> table[1..][k] == table[k + 1];
  }

  /** Joining two inert runs with `&` gives inert text with ampersands. */
  lemma InertJoin(x: string, y: string)
    requires forall i :: 0 <= i < |x| ==> Inert(x[i])
    requires forall i :: 0 <= i < |y| ==> Inert(y[i])
    ensures InertOrAmpersand(x + "&" + y)
  {
    var s1 := x + "&" + y;
    forall i | 0 <= i < |s1| ensures s1[i] == '&' || Inert(s1[i]) {
      if i < |x| {
        assert s1[i] == x[i];
      } else if i > |x| {
        assert s1[i] == y[i - |x| - 1];
      }
    }
  }

  /** The first two entity substitutions on `x + "&amp;" + y`. */
  lemma AmpersandReplaced(x: string, y: string)
    requires forall i :: 0 <= i < |x| ==> Inert(x[i])
    requires forall i :: 0 <= i < |y| ==> Inert(y[i])
    ensures ReplaceAll(x + "&amp;" + y, EntityTable[0].0, EntityTable[0].1) == x + "&amp;" + y
    ensures ReplaceAll(x + "&amp;" + y, "&amp;", "&") == x + "&" + y
  {
    var s := x + "&amp;" + y;
    MissingCharBlocks(s, EntityTable[0].0, 0);
    ReplaceAllNoMatch(s, EntityTable[0].0, EntityTable[0].1);
    assert IsFirstFrom(s, "&amp;", 0, |x|) by {
      assert s[|x|..|x| + 5] == "&amp;";
      forall m: nat | m < |x| ensures !OccursAt(s, "&amp;", m) {
        assert s[m..m + 5][0] == s[m] == x[m];
      }
    }
    ReplaceAllFirst(s, "&amp;", "&", |x|);
    assert s[..|x|] == x && s[|x| + 5..] == y;
    MissingCharBlocks(y, "&amp;", 4);
    ReplaceAllNoMatch(y, "&amp;", "&");
  }

  /** No entity after `&amp;` in the table occurs in inert text with
      ampersands: each needs a `#`, a `;` or a non-ASCII character. */
  lemma NoLaterEntity(s: string)
    requires InertOrAmpersand(s)
    ensures Shrinking(EntityTable[2..]) && ApplyTable(s, EntityTable[2..]) == s
  {
    TablesShrink();
    var rest := EntityTable[2..];
    assert Shrinking(rest) by {
      forall k | 0 <= k < |rest| ensures 0 < |rest[k].0| && |rest[k].1| <= |rest[k].0| {
        assert rest[k] == EntityTable[k + 2];
      }
    }
    forall k, i: nat | 0 <= k < |rest| ensures !OccursAt(s, rest[k].0, i) {
      var j := if k == 2 || k == 4 then 0 else if k == 3 || k == 5 then 5 else 1;
      MissingCharBlocks(s, rest[k].0, j);
    }
  }

  /** Inert text with ampersands holds no deleted markup and no anchor:
      each of those needs a `<` or a `>`. */
  lemma NoMarkupLeft(s: string)
    requires InertOrAmpersand(s)
    ensures Shrinking(MarkupTable) && ApplyTable(s, MarkupTable) == s
    ensures !Contains(s, AnchorOpen)
  {
    TablesShrink();
    forall k, i: nat | 0 <= k < |MarkupTable| ensures !OccursAt(s, MarkupTable[k].0, i) {
      var j := if k == 4 then 2 else if k == 5 then 3 else 0;
      MissingCharBlocks(s, MarkupTable[k].0, j);
    }
    MissingCharBlocks(s, AnchorOpen, 0);
  }

  /** None of the substitution patterns occurs in `s`. */
  ghost predicate NoTablePattern(s: string) {
    && (forall k, i: nat :: 0 <= k < |EntityTable| ==> !OccursAt(s, EntityTable[k].0, i))
    && (forall k, i: nat :: 0 <= k < |MarkupTable| ==> !OccursAt(s, MarkupTable[k].0, i))
  }

  /** Plain ASCII text with no entity, no deleted markup and no anchor
      comes out of `convertSpecialChars` unchanged. */
  lemma ConvertPlainText(s: string)
    requires AllAscii(s) && NoTablePattern(s) && !Contains(s, AnchorOpen)
    ensures ConvertSpecialChars(Some(s)) == Ok(Some(s))
  {
    TablesShrink();
  }

  /** In otherwise plain text, `convertSpecialChars` deletes only the
      first anchor's opening tag: the anchor text and its `</a>` stay,
      and a later anchor is left alone. An anchor whose tag is never
      closed makes it raise. */
  lemma ConvertRemovesFirstAnchorTag(s: string, i: nat)
    requires AllAscii(s) && NoTablePattern(s)
    requires IsFirstFrom(s, AnchorOpen, 0, i)
    ensures forall j: nat :: IsFirstFrom(s, AnchorClose, i, j) ==>
              ConvertSpecialChars(Some(s)) == Ok(Some(s[..i] + s[j + 2..]))
    ensures NoneFrom(s, AnchorClose, i) ==> ConvertSpecialChars(Some(s)) == Err(IndexOutOfBounds)
  {
    TablesShrink();
    assert ApplyTable(s, EntityTable) == s;
    assert DropNonAscii(s) == s;
    assert ApplyTable(s, MarkupTable) == s;
    assert Contains(s, AnchorOpen) by { assert i <= |s| - |AnchorOpen|; }
    RemoveLinkSplice(s, i);
  }
}

/** The field parsers of a podcast or episode: each tries a fixed list
    of triggers with `parseXML` and keeps the first non-null answer, and
    the media link is dug out of an `<enclosure url="...">` attribute or,
    failing that, a `<link>` element.
 */
module Fields {
  import opened Results
  import opened Text
  import opened Sanitizer
  import opened TagExtractor

  const TitleTriggers: seq<string> := ["<title>", "<itunes:summary>"]
  const DescriptionTriggers: seq<string> := ["<itunes:summary>", "<p>", "<description><![CDATA["]
  const ImageTriggers: seq<string> := ["<image><url>", "<itunes:image"]
  const ImageLastResort := "<image>"

  const Enclosure := "<enclosure"
  const UrlAttr := "url=\""
  const Quote := "\""
  const LinkOpen := "<link>"
  const LinkClose := "</link>"

  /** Every trigger the parsers hand to `parseXML` is well formed, so the
      extractor lemmas apply to all of them. */
  lemma TriggersWellFormed()
    ensures forall t :: t in TitleTriggers ==> WellFormedTrigger(t)
    ensures forall t :: t in DescriptionTriggers ==> WellFormedTrigger(t)
    ensures forall t :: t in ImageTriggers ==> WellFormedTrigger(t)
    ensures WellFormedTrigger(ImageLastResort)
  {
  }

  /** Looks up the text after a trigger: `parseXML` on a fixed feed. */
  type Lookup = string -> Result<Option<string>>

  /** `parseXML` on the feed text `h`. */
  function LookupIn(h: string): Lookup {
    (t: string) => ParseXML(h, t)
  }

  /** The chain `r = parseXML(a); if (r == null) r = parseXML(b); ...`:
      the first non-null answer wins and a raise ends the chain. */
  function FirstFound(find: Lookup, ts: seq<string>): (r: Result<Option<string>>)
    ensures r == Ok(None) <==> forall k :: 0 <= k < |ts| ==> find(ts[k]) == Ok(None)
    ensures r != Ok(None) ==>
              exists k :: 0 <= k < |ts| && r == find(ts[k]) &&
                forall m :: 0 <= m < k ==> find(ts[m]) == Ok(None)
  {
    if ts == [] then Ok(None)
    else
      var a :- find(ts[0]);
      if a.Some? then Ok(a)
      else
        var rest := FirstFound(find, ts[1..]);
        assert forall k :: 1 <= k < |ts| ==> ts[k] == ts[1..][k - 1];
        assert rest != Ok(None) ==>
                 exists k :: 0 <= k < |ts| && rest == find(ts[k]) &&
                   forall m :: 0 <= m < k ==> find(ts[m]) == Ok(None) by {
          if rest != Ok(None) {
            var k :| 0 <= k < |ts[1..]| && rest == find(ts[1..][k]) &&
                     forall m :: 0 <= m < k ==> find(ts[1..][m]) == Ok(None);
            assert rest == find(ts[k + 1]);
            forall m | 0 <= m < k + 1 ensures find(ts[m]) == Ok(None) {
              if m > 0 {
                assert ts[m] == ts[1..][m - 1];
              }
            }
          }
        }
        rest
  }

  /** A trigger answers only when every earlier trigger found nothing. */
  lemma {:induction false} FirstFoundAt(find: Lookup, ts: seq<string>, k: nat)
    requires k < |ts|
    requires forall m :: 0 <= m < k ==> find(ts[m]) == Ok(None)
    requires find(ts[k]) != Ok(None)
    ensures FirstFound(find, ts) == find(ts[k])
    decreases k
  {
    if k > 0 {
      assert find(ts[0]) == Ok(None);
      assert forall m :: 0 <= m < k - 1 ==> ts[1..][m] == ts[m + 1];
      FirstFoundAt(find, ts[1..], k - 1);
    }
  }

  /** `parseTitle`: `<title>`, falling back to `<itunes:summary>`. */
  function ParseTitle(h: string): (r: Result<Option<string>>)
    ensures ParseXML(h, "<title>") != Ok(None) ==> r == ParseXML(h, "<title>")
    ensures ParseXML(h, "<title>") == Ok(None) ==> r == ParseXML(h, "<itunes:summary>")
  {
    var ts := TitleTriggers;
    assert |ts| == 2 && ts[0] == "<title>" && ts[1] == "<itunes:summary>";
    FirstFound(LookupIn(h), ts)
  }

  /** `parseDescription`: `<itunes:summary>`, then `<p>`, then a CDATA
      description. */
  function ParseDescription(h: string): (r: Result<Option<string>>)
    ensures ParseXML(h, "<itunes:summary>") != Ok(None) ==> r == ParseXML(h, "<itunes:summary>")
    ensures ParseXML(h, "<itunes:summary>") == Ok(None) && ParseXML(h, "<p>") != Ok(None) ==>
              r == ParseXML(h, "<p>")
    ensures ParseXML(h, "<itunes:summary>") == Ok(None) && ParseXML(h, "<p>") == Ok(None) ==>
              r == ParseXML(h, "<description><![CDATA[")
  {
    var ts := DescriptionTriggers;
    assert |ts| == 3 && ts[0] == "<itunes:summary>" && ts[1] == "<p>" && ts[2] == "<description><![CDATA[";
    FirstFound(LookupIn(h), ts)
  }

  /** `parseImageLoc`: `<image><url>`, then `<itunes:image`, then
      `<image>` with its first four characters dropped. The last step
      dereferences its answer unconditionally, so a feed without any
      image raises instead of yielding null, and a short answer makes
      the `substring(4, ...)` raise. */
  function ParseImageLoc(h: string): (r: Result<Option<string>>)
    ensures r.Ok? ==> r.value.Some?
    ensures FirstFound(LookupIn(h), ImageTriggers) != Ok(None) ==> r == FirstFound(LookupIn(h), ImageTriggers)
    ensures FirstFound(LookupIn(h), ImageTriggers) == Ok(None) ==>
              match ParseXML(h, ImageLastResort)
              case Err(f) => r == Err(f)
              case Ok(None) => r == Err(NullDereference)
              case Ok(Some(v)) => r == (if |v| < 4 then Err(IndexOutOfBounds) else Ok(Some(v[4..])))
  {
    var first :- FirstFound(LookupIn(h), ImageTriggers);
    if first.Some? then Ok(first)
    else
      var last :- ParseXML(h, ImageLastResort);
      if last.None? then Err(NullDereference)
      else
        var v := last.value;
        if |v| < 4 then Err(IndexOutOfBounds) else Ok(Some(v[4..]))
  }

  /** A title present as a well-terminated `<title>` element is the
      cleaned text of that element. */
  lemma TitleFromTag(h: string, i: nat, p: nat)
    requires IsFirstFrom(h, "<title>", 0, i) && i + 7 < |h|
    requires IsFirstTerminator(h, i + 7, |h| - 10, p)
    ensures ParseTitle(h) == CleanCapture(h[i + 7..p])
  {
    TriggersWellFormed();
    assert WellFormedTrigger("<title>") by { assert "<title>" == TitleTriggers[0]; }
    ExtractFound(h, "<title>", i, p);
  }

  /** A feed in which none of the image triggers occur is rejected: the
      last-resort answer is null and is dereferenced. */
  lemma NoImageRaises(h: string)
    requires forall t: string, i: nat :: t in ImageTriggers + [ImageLastResort] && i + |t| < |h| ==>
               !OccursAt(h, t, i)
    ensures ParseImageLoc(h) == Err(NullDereference)
  {
    forall k | 0 <= k < |ImageTriggers| ensures ParseXML(h, ImageTriggers[k]) == Ok(None) {
      ExtractAbsent(h, ImageTriggers[k]);
    }
    ExtractAbsent(h, ImageLastResort);
  }

  /** First occurrences in a suffix are first occurrences in the whole
      string, shifted by the suffix's start. */
  lemma FirstInSuffix(s: string, pat: string, e: nat, k: nat, j: nat)
    requires e <= |s| && e + k <= j
    requires IsFirstFrom(s, pat, e + k, j)
    ensures IsFirstFrom(s[e..], pat, k, j - e)
  {
    OccursInSuffix(s, pat, e, j - e);
    forall m: nat | k <= m < j - e ensures !OccursAt(s[e..], pat, m) {
      OccursInSuffix(s, pat, e, m);
    }
  }

  /** No occurrence in the whole string from `e + k` means none in the
      suffix from `k`. */
  lemma NoneInSuffix(s: string, pat: string, e: nat, k: nat)
    requires e <= |s|
    requires NoneFrom(s, pat, e + k)
    ensures NoneFrom(s[e..], pat, k)
  {
    forall m: nat | k <= m ensures !OccursAt(s[e..], pat, m) {
      OccursInSuffix(s, pat, e, m);
    }
  }

  /** The recurring "scan to the first `pat`, then keep the text from
      there" step: `index` advanced from 0 and `s.substring(index)`. */
  function FromFirst(s: string, pat: string): (r: Result<string>)
    ensures r.Ok? ==> |r.value| <= |s| && r.value == s[|s| - |r.value|..]
  {
    var j :- AdvanceTo(s, pat, 0);
    Ok(s[j..])
  }

  /** With a first occurrence, the step keeps the text from it onwards. */
  lemma FromFirstAt(s: string, pat: string, e: nat, j: nat)
    requires e <= |s| && IsFirstFrom(s, pat, e, j)
    ensures FromFirst(s[e..], pat) == Ok(s[j..])
  {
    FirstInSuffix(s, pat, e, 0, j);
    assert s[e..][j - e..] == s[j..];
  }

  /** With no occurrence of a pattern longer than one character, the
      step runs off the end. */
  lemma FromFirstNone(s: string, pat: string, e: nat)
    requires e <= |s| && |pat| > 1 && NoneFrom(s, pat, e)
    ensures FromFirst(s[e..], pat) == Err(IndexOutOfBounds)
  {
    NoneInSuffix(s, pat, e, 0);
  }

  /** `getLink`. When `<enclosure` occurs the three scanning loops find
      it, the `url="` after it, and the closing quote; the index then is
      at least five, so the `getLinkAlt` fallback is taken only when no
      `<enclosure` occurs at all. */
  function GetLink(s: string): (r: Result<string>)
    ensures !Contains(s, Enclosure) ==> r == GetLinkAlt(s)
  {
    if Contains(s, Enclosure) then
      var s1 :- FromFirst(s, Enclosure);
      var s2 :- FromFirst(s1, UrlAttr);
      QuotedValue(s2)
    else GetLinkAlt(s)
  }

  /** The last loop of `getLink`: from just after `url="`, scan for the
      closing quote and return what lies before it. The loop stops on
      the last character when there is no quote. */
  function QuotedValue(s2: string): (r: Result<string>)
    ensures r.Ok? ==> 5 + |r.value| < |s2| && r.value == s2[5..5 + |r.value|]
    ensures r.Ok? ==> '"' !in r.value
  {
    var q :- AdvanceTo(s2, Quote, |UrlAttr|);
    assert forall i :: 5 <= i < q ==> s2[i] != '"' by {
      forall i | 5 <= i < q ensures s2[i] != '"' {
        assert !OccursAt(s2, Quote, i);
        assert s2[i..i + 1] == [s2[i]];
      }
    }
    Substring(s2, |UrlAttr|, q)
  }

  /** `getLinkAlt`: the text between `<link>` and the next `</link>`. With
      no `<link>` the final `substring(6, 0)` raises. */
  function GetLinkAlt(s: string): (r: Result<string>)
    ensures !Contains(s, LinkOpen) ==> r == Err(IndexOutOfBounds)
  {
    if Contains(s, LinkOpen) then
      var s1 :- FromFirst(s, LinkOpen);
      var m :- AdvanceTo(s1, LinkClose, 0);
      Substring(s1, |LinkOpen|, m)
    else Substring(s, |LinkOpen|, 0)
  }

  /** The first `<enclosure` and the first `url="` after it leave the
      text from that `url="` onwards for the quote scan. */
  lemma EnclosureUrl(s: string, j: nat, u: nat)
    requires IsFirstFrom(s, Enclosure, 0, j)
    requires IsFirstFrom(s, UrlAttr, j, u)
    ensures GetLink(s) == QuotedValue(s[u..])
  {
    assert Contains(s, Enclosure) by { assert j <= |s| - |Enclosure|; }
    FromFirstAt(s, Enclosure, 0, j);
    assert s[0..] == s;
    FromFirstAt(s, UrlAttr, j, u);
  }

  /** The usual case: the link is the attribute value between `url="`
      (the first after the first `<enclosure`) and the next quote. */
  lemma LinkFromEnclosure(s: string, j: nat, u: nat, q: nat)
    requires IsFirstFrom(s, Enclosure, 0, j)
    requires IsFirstFrom(s, UrlAttr, j, u)
    requires IsFirstFrom(s, Quote, u + 5, q)
    ensures GetLink(s) == Ok(s[u + 5..q])
  {
    EnclosureUrl(s, j, u);
    FirstInSuffix(s, Quote, u, 5, q);
    assert s[u..][5..q - u] == s[u + 5..q];
  }

  /** An unterminated attribute value: the quote loop stops on the last
      character, which is cut off, so the link loses its final
      character; with nothing after `url="` the scan raises. */
  lemma LinkUnquoted(s: string, j: nat, u: nat)
    requires IsFirstFrom(s, Enclosure, 0, j)
    requires IsFirstFrom(s, UrlAttr, j, u)
    requires NoneFrom(s, Quote, u + 5)
    ensures GetLink(s) == if u + 5 < |s| then Ok(s[u + 5..|s| - 1]) else Err(IndexOutOfBounds)
  {
    var s2 := s[u..];
    EnclosureUrl(s, j, u);
    NoneInSuffix(s, Quote, u, 5);
    UnquotedValue(s2);
    if u + 5 < |s| {
      assert s2[5..|s2| - 1] == s[u + 5..|s| - 1];
      assert GetLink(s) == Ok(s2[5..|s2| - 1]);
    } else {
      assert GetLink(s) == Err(IndexOutOfBounds);
    }
  }

  /** With no quote after offset 5 the quote scan stops on the last
      character, or raises when there is none. */
  lemma UnquotedValue(s2: string)
    requires NoneFrom(s2, Quote, 5)
    ensures QuotedValue(s2) == if 5 < |s2| then Ok(s2[5..|s2| - 1]) else Err(IndexOutOfBounds)
  {
    assert |Quote| == 1 && |UrlAttr| == 5;
    if 5 < |s2| {
      assert AdvanceTo(s2, Quote, 5) == Ok(|s2| - 1);
    } else {
      assert AdvanceTo(s2, Quote, 5) == Err(IndexOutOfBounds);
    }
  }

  /** An `<enclosure` without a `url="` after it makes the scan run off
      the end. */
  lemma LinkWithoutUrl(s: string, j: nat)
    requires IsFirstFrom(s, Enclosure, 0, j)
    requires NoneFrom(s, UrlAttr, j)
    ensures GetLink(s) == Err(IndexOutOfBounds)
  {
    assert Contains(s, Enclosure) by { assert j <= |s| - |Enclosure|; }
    FromFirstAt(s, Enclosure, 0, j);
    assert s[0..] == s;
    FromFirstNone(s, UrlAttr, j);
  }

  /** A `</link>` at or after a `<link>` starts past its end. */
  lemma CloseAfterOpen(s: string, j: nat, m: nat)
    requires OccursAt(s, LinkOpen, j) && OccursAt(s, LinkClose, m) && j <= m
    ensures m >= j + 6
  {
    var o := s[j..j + 6];
    assert o == LinkOpen;
    forall k: nat | j <= k < j + 6 && k + 7 <= |s| ensures !OccursAt(s, LinkClose, k) {
      assert s[k..k + 7][0] == s[k] && s[k..k + 7][1] == s[k + 1];
      assert k == j || s[k] == o[k - j];
      assert k > j || s[k + 1] == o[1];
    }
  }

  /** The fallback: the text between the first `<link>` and the first
      `</link>` after it. That closing tag cannot overlap the opening
      one, so the final substring never raises. */
  lemma LinkFromLinkTag(s: string, j: nat, m: nat)
    requires IsFirstFrom(s, LinkOpen, 0, j)
    requires IsFirstFrom(s, LinkClose, j, m)
    ensures j + 6 <= m && GetLinkAlt(s) == Ok(s[j + 6..m])
  {
    CloseAfterOpen(s, j, m);
    assert Contains(s, LinkOpen) by { assert j <= |s| - |LinkOpen|; }
    FromFirstAt(s, LinkOpen, 0, j);
    assert s[0..] == s;
    FirstInSuffix(s, LinkClose, j, 0, m);
    assert s[j..][6..m - j] == s[j + 6..m] by {
      assert j + 6 <= m <= |s|;
    }
  }

  /** A `<link>` that is never closed makes the scan run off the end. */
  lemma LinkTagUnclosed(s: string, j: nat)
    requires IsFirstFrom(s, LinkOpen, 0, j)
    requires NoneFrom(s, LinkClose, j)
    ensures GetLinkAlt(s) == Err(IndexOutOfBounds)
  {
    assert Contains(s, LinkOpen) by { assert j <= |s| - |LinkOpen|; }
    FromFirstAt(s, LinkOpen, 0, j);
    assert s[0..] == s;
    NoneInSuffix(s, LinkClose, j, 0);
  }
}

/** A podcast built from the text of its RSS feed: the channel fields,
    then one episode per `<item>` block, keyed by episode title.

    The link checks `new URI(...)` performs are a parameter
    `isUri: string -> bool` (the URI grammar is not modelled); a `false`
    answer is the `URISyntaxException`.
 */
module Feed {
  import opened Results
  import opened Text
  import opened Sanitizer
  import opened Fields
  import opened Sorting

  const ItemOpen := "<item>"
  const ItemClose := "</item>"

  /** A JavaFX play position, carried but never computed with. */
  datatype Duration = Duration(millis: real)

  /** An episode. The back-reference to its podcast is replaced by the
      episode living inside the podcast's map. */
  datatype Episode = Episode(
    title: Option<string>,
    description: Option<string>,
    link: string,
    index: nat,
    position: Option<Duration>)

  /** Episodes keyed by title; a `HashMap`, so the null title is a key. */
  type EpisodeMap = map<Option<string>, Episode>

  datatype Podcast = Podcast(
    title: Option<string>,
    description: Option<string>,
    link: string,
    image: string,
    episodes: EpisodeMap)

  /** Every episode is stored under its own title. */
  predicate KeyedByTitle(m: EpisodeMap) {
    forall k :: k in m ==> m[k].title == k
  }

  /** Every index is below `n`. */
  predicate IndicesBelow(m: EpisodeMap, n: nat) {
    forall k :: k in m ==> m[k].index < n
  }

  /** No two stored episodes share an index. */
  predicate DistinctIndices(m: EpisodeMap) {
    forall k1, k2 :: k1 in m && k2 in m && k1 != k2 ==> m[k1].index != m[k2].index
  }

  /** No episode has a saved play position. */
  predicate Unplayed(m: EpisodeMap) {
    forall k :: k in m ==> m[k].position.None?
  }

  /** The invariant the item loop keeps for `n` episodes numbered so far. */
  predicate ScanInvariant(m: EpisodeMap, n: nat) {
    KeyedByTitle(m) && IndicesBelow(m, n) && DistinctIndices(m) && Unplayed(m)
  }

  /** The inner `while` of `parseEpisodes`: scan from the `<item>` for
      `</item>`, stopping one past its `<`. Running off the end raises. */
  function ItemEnd(h: string, index: nat): (r: Result<nat>)
    ensures r.Ok? ==> 1 <= r.value && IsFirstFrom(h, ItemClose, index, r.value - 1)
    ensures NoneFrom(h, ItemClose, index) ==> r == Err(IndexOutOfBounds)
  {
    var e :- AdvanceTo(h, ItemClose, index);
    Ok(e + 1)
  }

  /** One loop body of `parseEpisodes` on an item block: title,
      description and link are parsed, the link is checked as a URI, and
      title and description are converted, in that order; the first
      failure is the result. */
  function BuildEpisode(block: string, isUri: string -> bool, n: nat): (r: Result<Episode>)
    ensures r.Ok? ==> r.value.index == n && r.value.position.None?
    ensures r.Ok? ==> GetLink(block) == Ok(r.value.link) && isUri(r.value.link)
    ensures r.Ok? ==> ParseTitle(block).Ok? && (r.value.title.Some? <==> ParseTitle(block).value.Some?)
    ensures r.Ok? && r.value.title.Some? ==> AllAscii(r.value.title.value)
    ensures r.Ok? && r.value.description.Some? ==> AllAscii(r.value.description.value)
    ensures GetLink(block).Ok? && !isUri(GetLink(block).value) ==> r.Err?
  {
    var title :- ParseTitle(block);
    var desc :- ParseDescription(block);
    var link :- GetLink(block);
    if !isUri(link) then Err(InvalidUri)
    else
      var t :- ConvertSpecialChars(title);
      var d :- ConvertSpecialChars(desc);
      Ok(Episode(t, d, link, n, None))
  }

  /** An episode is built exactly when every step succeeds, and its
      title and description are the converted tag texts. */
  lemma BuildEpisodeSteps(block: string, isUri: string -> bool, n: nat)
    ensures var r := BuildEpisode(block, isUri, n);
            && (r.Ok? <==>
                  && ParseTitle(block).Ok? && ParseDescription(block).Ok? && GetLink(block).Ok?
                  && isUri(GetLink(block).value)
                  && ConvertSpecialChars(ParseTitle(block).value).Ok?
                  && ConvertSpecialChars(ParseDescription(block).value).Ok?)
            && (r.Ok? ==>
                  && r.value.title == ConvertSpecialChars(ParseTitle(block).value).value
                  && r.value.description == ConvertSpecialChars(ParseDescription(block).value).value)
  {
  }

  /** Episode number `n`, built from the item block starting at
      `start`, which runs to just past the `<` of the next `</item>`. */
  function BlockEpisode(h: string, isUri: string -> bool, start: nat, n: nat): (r: Result<Episode>)
    ensures ItemEnd(h, start).Err? ==> r == Err(ItemEnd(h, start).fault)
    ensures ItemEnd(h, start).Ok? ==>
              start <= ItemEnd(h, start).value <= |h| &&
              r == BuildEpisode(h[start..ItemEnd(h, start).value], isUri, n)
    ensures r.Ok? ==> r.value.index == n && r.value.position.None?
  {
    var e :- ItemEnd(h, start);
    BuildEpisode(h[start..e], isUri, n)
  }

  /** The body of the item loop for a block starting at `start`: find
      its end, build episode number `n` from it and put it under its
      title, replacing any earlier episode with that title. */
  function ItemStep(h: string, isUri: string -> bool, start: nat, n: nat, m: EpisodeMap)
    : (r: Result<EpisodeMap>)
    ensures r.Ok? <==> BlockEpisode(h, isUri, start, n).Ok?
    ensures r.Err? ==> r.fault == BlockEpisode(h, isUri, start, n).fault
    ensures r.Ok? ==>
              r.value == m[BlockEpisode(h, isUri, start, n).value.title := BlockEpisode(h, isUri, start, n).value]
    ensures r.Ok? && ScanInvariant(m, n) ==> ScanInvariant(r.value, n + 1)
    ensures r.Ok? ==> |r.value| <= |m| + 1 && m.Keys <= r.value.Keys
  {
    var ep :- BlockEpisode(h, isUri, start, n);
    PutKeepsInvariant(m, n, ep);
    Ok(m[ep.title := ep])
  }

  /** Putting episode number `n` under its title keeps the invariant
      for one more episode. */
  lemma PutKeepsInvariant(m: EpisodeMap, n: nat, ep: Episode)
    requires ep.index == n && ep.position.None?
    ensures ScanInvariant(m, n) ==> ScanInvariant(m[ep.title := ep], n + 1)
    ensures |m[ep.title := ep]| <= |m| + 1 && m.Keys <= m[ep.title := ep].Keys
  {
  }

  /** The `for` loop of `parseEpisodes`: every offset below
      `|text| - 6` holding `<item>` starts a block that runs to just past
      the `<` of the next `</item>`; the loop then moves on by one
      character, not past the block. */
  function ScanItems(h: string, isUri: string -> bool, index: nat, n: nat, acc: EpisodeMap)
    : (r: Result<EpisodeMap>)
    decreases |h| - index
    ensures r.Ok? ==> acc.Keys <= r.value.Keys
  {
    if index + |ItemOpen| >= |h| then Ok(acc)
    else if h[index..index + |ItemOpen|] != ItemOpen then ScanItems(h, isUri, index + 1, n, acc)
    else
      var m :- ItemStep(h, isUri, index, n, acc);
      ScanItems(h, isUri, index + 1, n + 1, m)
  }

  /** `parseEpisodes`. Empty text leaves the loop without an iteration.
      What the map holds, item by item, is `ParseEpisodesByItems`. */
  function ParseEpisodes(h: string, isUri: string -> bool): (r: Result<EpisodeMap>)
    ensures h == [] ==> r == Ok(map[])
    ensures r.Ok? ==> ScanInvariant(r.value, |ItemStarts(h, 0)|)
    ensures r.Ok? ==> |r.value| <= |ItemStarts(h, 0)|
  {
    ScanIsFold(h, isUri, 0, 0, map[]);
    FoldInvariant(BodyOf(h, isUri), ItemStarts(h, 0), 0, map[]);
    ScanItems(h, isUri, 0, 0, map[])
  }

  /** Every `<item>` offset yields one episode, numbered in text order;
      the first item that fails makes the whole parse fail with its
      fault; otherwise the map holds the episodes put under their titles
      in order, so a later item replaces an earlier one with the same
      title. */
  lemma ParseEpisodesByItems(h: string, isUri: string -> bool)
    ensures var r := ParseEpisodes(h, isUri);
            && (r.Ok? <==> forall k :: 0 <= k < |ItemStarts(h, 0)| ==> ItemEpisode(h, isUri, k).Ok?)
            && (r.Err? ==>
                  exists k :: 0 <= k < |ItemStarts(h, 0)| && ItemEpisode(h, isUri, k) == Err(r.fault) &&
                    forall j :: 0 <= j < k ==> ItemEpisode(h, isUri, j).Ok?)
            && (r.Ok? ==>
                  && Episodes(BuilderOf(h, isUri), ItemStarts(h, 0), 0).Ok?
                  && r.value == PutAll(map[], Episodes(BuilderOf(h, isUri), ItemStarts(h, 0), 0).value))
  {
    ParseIsPutAll(h, isUri);
    ItemsBuildAll(h, isUri);
    if Episodes(BuilderOf(h, isUri), ItemStarts(h, 0), 0).Err? {
      ItemsFirstFailure(h, isUri);
    }
  }

  /** The item loop puts the episodes of all items, in order, into an
      empty map, or fails as the first failing item does. */
  lemma ParseIsPutAll(h: string, isUri: string -> bool)
    ensures ParseEpisodes(h, isUri) ==
              match Episodes(BuilderOf(h, isUri), ItemStarts(h, 0), 0)
              case Err(f) => Err(f)
              case Ok(eps) => Ok(PutAll(map[], eps))
  {
    ScanIsFold(h, isUri, 0, 0, map[]);
    FoldIsPutAll(h, isUri, ItemStarts(h, 0), 0, map[]);
  }

  /** The episode of the `k`-th `<item>` of the text. */
  function ItemEpisode(h: string, isUri: string -> bool, k: nat): Result<Episode>
    requires k < |ItemStarts(h, 0)|
  {
    BuilderOf(h, isUri)(ItemStarts(h, 0)[k], k)
  }

  /** Builds an episode from a block start and an episode number. */
  type Builder = (nat, nat) -> Result<Episode>

  /** The episode builder of `parseEpisodes` on a given text. */
  function BuilderOf(h: string, isUri: string -> bool): Builder {
    (start: nat, n: nat) => BlockEpisode(h, isUri, start, n)
  }

  /** The episodes built at `starts`, numbered from `n` in order, or the
      fault of the first block that fails. */
  function Episodes(build: Builder, starts: seq<nat>, n: nat): (r: Result<seq<Episode>>)
    decreases |starts|
    ensures r.Ok? <==> forall k :: 0 <= k < |starts| ==> build(starts[k], n + k).Ok?
    ensures r.Ok? ==>
              |r.value| == |starts| &&
              forall k :: 0 <= k < |starts| ==> r.value[k] == build(starts[k], n + k).value
    ensures r.Err? ==>
              exists k :: 0 <= k < |starts| && build(starts[k], n + k) == Err(r.fault) &&
                forall j :: 0 <= j < k ==> build(starts[j], n + j).Ok?
  {
    if starts == [] then Ok([])
    else
      var ep :- build(starts[0], n);
      var rest := Episodes(build, starts[1..], n + 1);
      var r := if rest.Err? then Err(rest.fault) else Ok([ep] + rest.value);
      EpisodesCons(build, starts, n, rest, r);
      r
  }

  /** The three promises of `Episodes` about a result `r`. */
  ghost predicate BuiltInOrder(build: Builder, starts: seq<nat>, n: nat, r: Result<seq<Episode>>) {
    && (r.Ok? <==> forall k :: 0 <= k < |starts| ==> build(starts[k], n + k).Ok?)
    && (r.Ok? ==>
          |r.value| == |starts| &&
          forall k :: 0 <= k < |starts| ==> r.value[k] == build(starts[k], n + k).value)
    && (r.Err? ==>
          exists k :: 0 <= k < |starts| && build(starts[k], n + k) == Err(r.fault) &&
            forall j :: 0 <= j < k ==> build(starts[j], n + j).Ok?)
  }

  /** One more block in front: its episode goes first, or a failure in
      the rest is passed on. */
  lemma EpisodesCons(build: Builder, starts: seq<nat>, n: nat, rest: Result<seq<Episode>>, r: Result<seq<Episode>>)
    requires |starts| > 0 && build(starts[0], n).Ok?
    requires BuiltInOrder(build, starts[1..], n + 1, rest)
    requires r == if rest.Err? then Err(rest.fault) else Ok([build(starts[0], n).value] + rest.value)
    ensures BuiltInOrder(build, starts, n, r)
  {
    assert forall k :: 1 <= k < |starts| ==> starts[1..][k - 1] == starts[k] && n + 1 + (k - 1) == n + k;
    if rest.Err? {
      var k' :| 0 <= k' < |starts[1..]| && build(starts[1..][k'], n + 1 + k') == Err(rest.fault) &&
                forall j :: 0 <= j < k' ==> build(starts[1..][j], n + 1 + j).Ok?;
      assert build(starts[k' + 1], n + (k' + 1)) == Err(rest.fault);
      forall j | 0 <= j < k' + 1 ensures build(starts[j], n + j).Ok? {
        if j > 0 {
          assert starts[j] == starts[1..][j - 1];
        }
      }
    }
  }

  /** The episodes built at the item offsets exist exactly when every
      item builds. */
  lemma ItemsBuildAll(h: string, isUri: string -> bool)
    ensures Episodes(BuilderOf(h, isUri), ItemStarts(h, 0), 0).Ok? <==>
              forall k :: 0 <= k < |ItemStarts(h, 0)| ==> ItemEpisode(h, isUri, k).Ok?
  {
    var starts := ItemStarts(h, 0);
    var build := BuilderOf(h, isUri);
    var e := Episodes(build, starts, 0);
    EpisodesFromZero(build, starts);
    if e.Ok? {
      forall k | 0 <= k < |starts| ensures ItemEpisode(h, isUri, k).Ok? {
        assert ItemEpisode(h, isUri, k) == build(starts[k], k);
      }
    } else {
      var k :| 0 <= k < |starts| && build(starts[k], k) == Err(e.fault);
      assert ItemEpisode(h, isUri, k) == build(starts[k], k);
    }
  }

  /** The episodes built at the item offsets are the items' episodes. */
  lemma ItemsAreEpisodes(h: string, isUri: string -> bool)
    requires Episodes(BuilderOf(h, isUri), ItemStarts(h, 0), 0).Ok?
    ensures var eps := Episodes(BuilderOf(h, isUri), ItemStarts(h, 0), 0).value;
            |eps| == |ItemStarts(h, 0)| &&
            forall k :: 0 <= k < |ItemStarts(h, 0)| ==> ItemEpisode(h, isUri, k).Ok? && eps[k] == ItemEpisode(h, isUri, k).value
  {
    EpisodesFromZero(BuilderOf(h, isUri), ItemStarts(h, 0));
  }

  /** A failure of the episodes built at the item offsets is the
      failure of the first item that does not build. */
  lemma ItemsFirstFailure(h: string, isUri: string -> bool)
    requires Episodes(BuilderOf(h, isUri), ItemStarts(h, 0), 0).Err?
    ensures var f := Episodes(BuilderOf(h, isUri), ItemStarts(h, 0), 0).fault;
            exists k :: 0 <= k < |ItemStarts(h, 0)| && ItemEpisode(h, isUri, k) == Err(f) &&
              forall j :: 0 <= j < k ==> ItemEpisode(h, isUri, j).Ok?
  {
    var starts := ItemStarts(h, 0);
    var build := BuilderOf(h, isUri);
    EpisodesFromZero(build, starts);
    var k :| 0 <= k < |starts| && build(starts[k], k) == Err(Episodes(build, starts, 0).fault) &&
             forall j :: 0 <= j < k ==> build(starts[j], j).Ok?;
    assert ItemEpisode(h, isUri, k) == build(starts[k], k);
  }

  /** `Episodes` numbering from zero: block `k` is episode `k`. */
  lemma EpisodesFromZero(build: Builder, starts: seq<nat>)
    ensures Episodes(build, starts, 0).Ok? <==> forall k :: 0 <= k < |starts| ==> build(starts[k], k).Ok?
    ensures Episodes(build, starts, 0).Ok? ==>
              forall k :: 0 <= k < |starts| ==> Episodes(build, starts, 0).value[k] == build(starts[k], k).value
    ensures Episodes(build, starts, 0).Err? ==>
              exists k :: 0 <= k < |starts| && build(starts[k], k) == Err(Episodes(build, starts, 0).fault) &&
                forall j :: 0 <= j < k ==> build(starts[j], j).Ok?
  {
    var e := Episodes(build, starts, 0);
    assert forall k :: 0 <= k < |starts| ==> build(starts[k], 0 + k) == build(starts[k], k);
    if e.Err? {
      var k :| 0 <= k < |starts| && build(starts[k], 0 + k) == Err(e.fault) &&
               forall j :: 0 <= j < k ==> build(starts[j], 0 + j).Ok?;
      assert build(starts[k], k) == Err(e.fault);
    }
  }

  /** The titles of a list of episodes. */
  function Titles(eps: seq<Episode>): set<Option<string>> {
    set k | 0 <= k < |eps| :: eps[k].title
  }

  /** Puts each episode under its title, in order, so a later episode
      replaces an earlier one with the same title. */
  function PutAll(m: EpisodeMap, eps: seq<Episode>): (r: EpisodeMap)
    decreases |eps|
    ensures r.Keys == m.Keys + Titles(eps)
    ensures forall t :: t in m && (forall k :: 0 <= k < |eps| ==> eps[k].title != t) ==> r[t] == m[t]
  {
    if eps == [] then m
    else
      var r := PutAll(m[eps[0].title := eps[0]], eps[1..]);
      assert Titles(eps) == {eps[0].title} + Titles(eps[1..]) by {
        forall t | t in Titles(eps) ensures t in {eps[0].title} + Titles(eps[1..]) {
          var k :| 0 <= k < |eps| && eps[k].title == t;
          if k > 0 {
            assert eps[1..][k - 1].title == t;
          }
        }
      }
      r
  }

  /** The entry a title ends up with is the last episode carrying it. */
  lemma {:induction false} PutAllLatest(m: EpisodeMap, eps: seq<Episode>, k: nat)
    requires k < |eps|
    ensures eps[k].title in PutAll(m, eps)
    ensures exists j :: k <= j < |eps| && eps[j] == PutAll(m, eps)[eps[k].title] &&
              forall j' :: j < j' < |eps| ==> eps[j'].title != eps[k].title
    decreases |eps|, 1
  {
    var t := eps[k].title;
    if k > 0 {
      PutAllLatestInTail(m, eps, k);
    } else if k2 :| 1 <= k2 < |eps| && eps[k2].title == t {
      PutAllLatestInTail(m, eps, k2);
    } else {
      var m1 := m[eps[0].title := eps[0]];
      var tail := eps[1..];
      assert forall i :: 0 <= i < |tail| ==> tail[i].title != t by {
        forall i | 0 <= i < |tail| ensures tail[i].title != t {
          assert tail[i] == eps[i + 1];
        }
      }
      assert PutAll(m, eps)[t] == PutAll(m1, tail)[t] == eps[0];
    }
  }

  /** `PutAllLatest` for an episode past the first, from the tail. */
  lemma {:induction false} PutAllLatestInTail(m: EpisodeMap, eps: seq<Episode>, k: nat)
    requires 0 < k < |eps|
    ensures eps[k].title in PutAll(m, eps)
    ensures exists j :: k <= j < |eps| && eps[j] == PutAll(m, eps)[eps[k].title] &&
              forall j' :: j < j' < |eps| ==> eps[j'].title != eps[k].title
    decreases |eps|, 0
  {
    var t := eps[k].title;
    var m1 := m[eps[0].title := eps[0]];
    var tail := eps[1..];
    assert PutAll(m, eps) == PutAll(m1, tail);
    assert tail[k - 1] == eps[k];
    PutAllLatest(m1, tail, k - 1);
    var j :| k - 1 <= j < |tail| && tail[j] == PutAll(m1, tail)[t] &&
             forall j' :: j < j' < |tail| ==> tail[j'].title != t;
    assert eps[j + 1] == tail[j];
    assert forall j' :: j + 1 < j' < |eps| ==> eps[j'] == tail[j' - 1];
  }

  /** The item loop puts the episodes of the item blocks, in order, or
      stops at the first block that fails. */
  lemma {:induction false} FoldIsPutAll(h: string, isUri: string -> bool, starts: seq<nat>, n: nat, acc: EpisodeMap)
    ensures FoldItems(BodyOf(h, isUri), starts, n, acc) ==
              match Episodes(BuilderOf(h, isUri), starts, n)
              case Err(f) => Err(f)
              case Ok(eps) => Ok(PutAll(acc, eps))
    decreases |starts|
  {
    if starts != [] {
      var b := BlockEpisode(h, isUri, starts[0], n);
      if b.Ok? {
        var m := acc[b.value.title := b.value];
        assert BodyOf(h, isUri)(starts[0], n, acc) == Ok(m);
        FoldIsPutAll(h, isUri, starts[1..], n + 1, m);
        var e := Episodes(BuilderOf(h, isUri), starts[1..], n + 1);
        if e.Ok? {
          assert ([b.value] + e.value)[1..] == e.value;
        }
      }
    }
  }

  /** Every item's episode is stored under its title, and the entry for
      that title is the episode of the last item carrying it. */
  lemma ItemStoredUnderTitle(h: string, isUri: string -> bool, k: nat)
    requires forall j :: 0 <= j < |ItemStarts(h, 0)| ==> ItemEpisode(h, isUri, j).Ok?
    requires k < |ItemStarts(h, 0)|
    ensures ParseEpisodes(h, isUri).Ok?
    ensures var m := ParseEpisodes(h, isUri).value;
            var t := ItemEpisode(h, isUri, k).value.title;
            && t in m
            && k <= m[t].index < |ItemStarts(h, 0)|
            && ItemEpisode(h, isUri, m[t].index) == Ok(m[t])
            && forall j :: m[t].index < j < |ItemStarts(h, 0)| ==> ItemEpisode(h, isUri, j).value.title != t
  {
    ParseEpisodesByItems(h, isUri);
    ItemsNumbered(h, isUri);
    LatestByIndex(Episodes(BuilderOf(h, isUri), ItemStarts(h, 0), 0).value, k);
  }

  /** When every item builds, the episodes are the items' episodes,
      each numbered by its position. */
  lemma ItemsNumbered(h: string, isUri: string -> bool)
    requires forall j :: 0 <= j < |ItemStarts(h, 0)| ==> ItemEpisode(h, isUri, j).Ok?
    ensures var e := Episodes(BuilderOf(h, isUri), ItemStarts(h, 0), 0);
            && e.Ok? && |e.value| == |ItemStarts(h, 0)|
            && forall i :: 0 <= i < |e.value| ==> e.value[i] == ItemEpisode(h, isUri, i).value && e.value[i].index == i
  {
    ItemsBuildAll(h, isUri);
    ItemsAreEpisodes(h, isUri);
    var starts := ItemStarts(h, 0);
    forall i | 0 <= i < |starts| ensures ItemEpisode(h, isUri, i).value.index == i {
      assert ItemEpisode(h, isUri, i) == BlockEpisode(h, isUri, starts[i], i);
    }
  }

  /** For episodes numbered by their position, the entry a title ends
      up with is the last episode carrying it, found by its number. */
  lemma LatestByIndex(eps: seq<Episode>, k: nat)
    requires forall i :: 0 <= i < |eps| ==> eps[i].index == i
    requires k < |eps|
    ensures var m := PutAll(map[], eps);
            var t := eps[k].title;
            && t in m
            && k <= m[t].index < |eps|
            && eps[m[t].index] == m[t]
            && forall j :: m[t].index < j < |eps| ==> eps[j].title != t
  {
    PutAllLatest(map[], eps, k);
  }

  /** An item without a later `</item>` makes the parse raise, once the
      items before it have built. */
  lemma MissingItemCloseRaises(h: string, isUri: string -> bool, k: nat)
    requires k < |ItemStarts(h, 0)|
    requires forall j :: 0 <= j < k ==> ItemEpisode(h, isUri, j).Ok?
    requires NoneFrom(h, ItemClose, ItemStarts(h, 0)[k])
    ensures ParseEpisodes(h, isUri) == Err(IndexOutOfBounds)
  {
    assert ItemEpisode(h, isUri, k) == Err(IndexOutOfBounds);
    ParseEpisodesByItems(h, isUri);
    var r := ParseEpisodes(h, isUri);
    var k0 :| 0 <= k0 < |ItemStarts(h, 0)| && ItemEpisode(h, isUri, k0) == Err(r.fault) &&
              forall j :: 0 <= j < k0 ==> ItemEpisode(h, isUri, j).Ok?;
    assert k0 == k;
  }

  /** The offsets at or after `from`, below `|text| - 6`, at which
      `<item>` occurs: the offsets the item loop builds episodes from. */
  function ItemStarts(h: string, from: nat): (r: seq<nat>)
    decreases |h| - from
    ensures forall i :: 0 <= i < |r| ==> from <= r[i] && r[i] + 6 < |h| && OccursAt(h, ItemOpen, r[i])
    ensures forall i, j :: 0 <= i < j < |r| ==> r[i] < r[j]
    ensures forall p: nat :: from <= p && p + 6 < |h| && OccursAt(h, ItemOpen, p) ==> p in r
  {
    if from + 6 >= |h| then []
    else if OccursAt(h, ItemOpen, from) then [from] + ItemStarts(h, from + 1)
    else ItemStarts(h, from + 1)
  }

  /** A loop body over item starts: start offset, episode number, map
      so far. */
  type Step = (nat, nat, EpisodeMap) -> Result<EpisodeMap>

  /** The body of `parseEpisodes`' loop on a given text. */
  function BodyOf(h: string, isUri: string -> bool): Step {
    (start: nat, n: nat, m: EpisodeMap) => ItemStep(h, isUri, start, n, m)
  }

  /** A loop body applied to each listed start in turn, numbering the
      episodes from `n`; the first failure stops it. */
  function FoldItems(step: Step, starts: seq<nat>, n: nat, acc: EpisodeMap): (r: Result<EpisodeMap>)
    decreases |starts|
  {
    if starts == [] then Ok(acc)
    else
      var m :- step(starts[0], n, acc);
      FoldItems(step, starts[1..], n + 1, m)
  }

  /** The item loop builds episodes from exactly the `<item>` offsets,
      in increasing order. */
  lemma {:induction false} ScanIsFold(h: string, isUri: string -> bool, index: nat, n: nat, acc: EpisodeMap)
    ensures ScanItems(h, isUri, index, n, acc) == FoldItems(BodyOf(h, isUri), ItemStarts(h, index), n, acc)
    decreases |h| - index
  {
    if index + 6 < |h| {
      if OccursAt(h, ItemOpen, index) {
        var m := ItemStep(h, isUri, index, n, acc);
        if m.Ok? {
          ScanIsFold(h, isUri, index + 1, n + 1, m.value);
        }
      } else {
        ScanIsFold(h, isUri, index + 1, n, acc);
      }
    }
  }

  /** A loop body that keeps the scan invariant for one more episode. */
  ghost predicate KeepsInvariant(step: Step) {
    forall start: nat, n: nat, m: EpisodeMap ::
      step(start, n, m).Ok? && ScanInvariant(m, n) ==>
        ScanInvariant(step(start, n, m).value, n + 1) && |step(start, n, m).value| <= |m| + 1
  }

  /** The loop keeps every episode under its title, numbers them with
      distinct indices below the number of items visited, stores none
      with a play position, and stores at most one per item. */
  lemma {:induction false} FoldInvariant(step: Step, starts: seq<nat>, n: nat, acc: EpisodeMap)
    requires KeepsInvariant(step)
    requires ScanInvariant(acc, n)
    ensures FoldItems(step, starts, n, acc).Ok? ==>
              ScanInvariant(FoldItems(step, starts, n, acc).value, n + |starts|) &&
              |FoldItems(step, starts, n, acc).value| <= |acc| + |starts|
    decreases |starts|
  {
    if starts != [] {
      var m := step(starts[0], n, acc);
      if m.Ok? {
        FoldInvariant(step, starts[1..], n + 1, m.value);
      }
    }
  }

  /** One more item at the end of the list: the map built so far, with
      the loop body applied once more, so the later item wins a clash
      of titles. */
  lemma {:induction false} FoldSnoc(step: Step, starts: seq<nat>, s: nat, n: nat, acc: EpisodeMap)
    ensures FoldItems(step, starts + [s], n, acc) ==
              match FoldItems(step, starts, n, acc)
              case Err(f) => Err(f)
              case Ok(m) => step(s, n + |starts|, m)
    decreases |starts|
  {
    var all := starts + [s];
    if starts == [] {
      assert all[1..] == [];
    } else {
      assert all[1..] == starts[1..] + [s];
      var m := step(starts[0], n, acc);
      if m.Ok? {
        FoldSnoc(step, starts[1..], s, n + 1, m.value);
      }
    }
  }

  /** The `Podcast(filePath, HTML)` constructor on fetched text: the
      path is checked as a URI, then title (converted), image (checked as
      a URI), description (converted) and episodes are parsed in that
      order, and the first failure is the result. */
  function NewPodcast(path: string, h: string, isUri: string -> bool): (r: Result<Podcast>)
    ensures !isUri(path) ==> r == Err(InvalidUri)
    ensures r.Ok? ==> r.value.link == path && isUri(r.value.image)
    ensures r.Ok? ==> ParseImageLoc(h) == Ok(Some(r.value.image))
    ensures r.Ok? && r.value.title.Some? ==> AllAscii(r.value.title.value)
    ensures r.Ok? && r.value.description.Some? ==> AllAscii(r.value.description.value)
    ensures r.Ok? ==> ParseEpisodes(h, isUri) == Ok(r.value.episodes)
  {
    if !isUri(path) then Err(InvalidUri)
    else
      var title :- ParseTitle(h);
      var t :- ConvertSpecialChars(title);
      // The image is never null once parseImageLoc returns, so the
      // constructor's null check always passes.
      var image :- ParseImageLoc(h);
      if !isUri(image.value) then Err(InvalidUri)
      else
        var desc :- ParseDescription(h);
        var d :- ConvertSpecialChars(desc);
        var eps :- ParseEpisodes(h, isUri);
        Ok(Podcast(t, d, path, image.value, eps))
  }

  /** The constructor succeeds exactly when every step does, and the
      podcast's title and description are the converted tag texts. */
  lemma NewPodcastSteps(path: string, h: string, isUri: string -> bool)
    ensures var r := NewPodcast(path, h, isUri);
            && (r.Ok? <==>
                  && isUri(path)
                  && ParseTitle(h).Ok? && ConvertSpecialChars(ParseTitle(h).value).Ok?
                  && ParseImageLoc(h).Ok? && isUri(ParseImageLoc(h).value.value)
                  && ParseDescription(h).Ok? && ConvertSpecialChars(ParseDescription(h).value).Ok?
                  && ParseEpisodes(h, isUri).Ok?)
            && (r.Ok? ==>
                  && r.value.title == ConvertSpecialChars(ParseTitle(h).value).value
                  && r.value.description == ConvertSpecialChars(ParseDescription(h).value).value)
  {
  }

  /** Every podcast built from a feed keeps its episodes under their
      titles, with distinct indices and no play positions. */
  lemma PodcastEpisodesWellFormed(path: string, h: string, isUri: string -> bool)
    requires NewPodcast(path, h, isUri).Ok?
    ensures var p := NewPodcast(path, h, isUri).value;
            KeyedByTitle(p.episodes) && DistinctIndices(p.episodes) && Unplayed(p.episodes)
  {
  }

  /** A feed with none of the image tags is rejected: `parseImageLoc`
      dereferences the null last-resort answer. */
  lemma FeedWithoutImageRejected(path: string, h: string, isUri: string -> bool)
    requires forall t: string, i: nat :: t in ImageTriggers + [ImageLastResort] && i + |t| < |h| ==>
               !OccursAt(h, t, i)
    ensures NewPodcast(path, h, isUri).Err?
  {
    NoImageRaises(h);
  }

  /** Empty text never makes a podcast. */
  lemma EmptyFeedRejected(path: string, isUri: string -> bool)
    ensures NewPodcast(path, [], isUri).Err?
  {
    FeedWithoutImageRejected(path, [], isUri);
  }

  /** `Episode.compareTo`: by index. */
  predicate ByIndex(a: Episode, b: Episode) {
    a.index <= b.index
  }

  lemma ByIndexIsTotalPreorder()
    ensures Total(ByIndex) && Transitive(ByIndex)
  {
  }

  /** `getEpisodes`: the episodes listed in index order. */
  method GetEpisodes(p: Podcast) returns (r: seq<Episode>)
    ensures |r| == |p.episodes|
    ensures forall k :: k in p.episodes ==> p.episodes[k] in r
    ensures forall e :: e in r ==> e in p.episodes.Values
    ensures SortedBy(r, ByIndex)
  {
    var listed: seq<Episode> := [];
    var rest := p.episodes.Keys;
    while rest != {}
      invariant rest <= p.episodes.Keys
      invariant |listed| + |rest| == |p.episodes|
      invariant forall k :: k in p.episodes && k !in rest ==> p.episodes[k] in listed
      invariant forall e :: e in listed ==> e in p.episodes.Values
      decreases |rest|
    {
      var k :| k in rest;
      listed := listed + [p.episodes[k]];
      rest := rest - {k};
    }
    ByIndexIsTotalPreorder();
    r := SortBy(listed, ByIndex);
    assert forall e :: e in r <==> e in listed by {
      forall e ensures e in r <==> e in listed {
        assert e in r <==> e in multiset(r);
        assert e in listed <==> e in multiset(listed);
      }
    }
    assert |r| == |multiset(r)| == |multiset(listed)| == |listed|;
  }

  /** `getEpisode(title)`: the map lookup, null when absent. */
  function FindEpisode(p: Podcast, title: Option<string>): (r: Option<Episode>)
    ensures r.Some? <==> title in p.episodes
    ensures KeyedByTitle(p.episodes) && r.Some? ==> r.value.title == title
  {
    if title in p.episodes then Some(p.episodes[title]) else None
  }
}

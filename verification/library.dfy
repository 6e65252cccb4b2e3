/** The player model: a library of podcasts keyed by title and the
    episode currently selected for playing.

    The selected episode is an object reference in the program. Here it
    is a cursor naming the podcast's key, the episode's key and the
    serial number the library gave that podcast when it was stored. A
    podcast re-added under the same title gets a new serial, and a
    cursor into the replaced one no longer reaches the library, as the
    old object no longer does.
 */
module PlayerModel {
  import opened Results
  import opened Text
  import opened Feed
  import opened Sorting

  /** A stored podcast with the serial number it was stored under. */
  datatype Entry = Entry(podcast: Podcast, serial: nat)

  /** The selected episode. */
  datatype Cursor = Cursor(podcast: Option<string>, episode: Option<string>, serial: nat)

  /** `library` (a `HashMap`, so the null title is a key) and `curEp`. */
  datatype Model = Model(podcasts: map<Option<string>, Entry>, nextSerial: nat, current: Option<Cursor>)

  /** The state the operations maintain: every podcast is stored under
      its title, episodes under theirs, and every serial handed out is
      below the next one. */
  predicate Valid(lib: Model) {
    && (forall k :: k in lib.podcasts ==>
          && lib.podcasts[k].podcast.title == k
          && lib.podcasts[k].serial < lib.nextSerial
          && KeyedByTitle(lib.podcasts[k].podcast.episodes))
    && (lib.current.Some? ==> lib.current.value.serial < lib.nextSerial)
  }

  /** The constructor: an empty library and no episode selected. */
  function Empty(): (r: Model)
    ensures Valid(r) && r.podcasts == map[] && r.current.None?
  {
    Model(map[], 0, None)
  }

  /** `addPodcast(filePath)` given what `getSiteContent` fetched (`None`
      when the fetch failed). Every failure is caught and reported, and
      leaves the library as it was; a podcast is stored under its title,
      replacing any podcast with that title. */
  function AddPodcast(lib: Model, path: string, fetched: Option<string>, isUri: string -> bool): (r: Model)
    ensures !isUri(path) || fetched.None? ==> r == lib
    ensures fetched.Some? && NewPodcast(path, fetched.value, isUri).Err? ==> r == lib
    ensures fetched.Some? && NewPodcast(path, fetched.value, isUri).Ok? ==>
              var p := NewPodcast(path, fetched.value, isUri).value;
              && r.podcasts.Keys == lib.podcasts.Keys + {p.title}
              && r.podcasts[p.title].podcast == p
              && (forall k :: k in lib.podcasts && k != p.title ==> r.podcasts[k] == lib.podcasts[k])
              && r.current == lib.current
    ensures Valid(lib) ==> Valid(r)
  {
    if !isUri(path) then lib
    else
      match fetched
      case None => lib
      case Some(h) =>
        match NewPodcast(path, h, isUri)
        case Err(_) => lib
        case Ok(p) =>
          PodcastEpisodesWellFormed(path, h, isUri);
          Store(lib, p)
  }

  /** `library.put(p.getTitle(), p)`: the podcast goes under its title
      with a fresh serial, replacing only that key. */
  function Store(lib: Model, p: Podcast): (r: Model)
    ensures r.podcasts.Keys == lib.podcasts.Keys + {p.title}
    ensures r.podcasts[p.title].podcast == p
    ensures forall k :: k in lib.podcasts && k != p.title ==> r.podcasts[k] == lib.podcasts[k]
    ensures r.current == lib.current
    ensures Valid(lib) && KeyedByTitle(p.episodes) ==> Valid(r)
  {
    lib.(podcasts := lib.podcasts[p.title := Entry(p, lib.nextSerial)], nextSerial := lib.nextSerial + 1)
  }

  /** `Podcast.compareTo`: by title. A null title makes `compareTo`
      raise; as an order, it is put first so the order is total. */
  predicate ByTitle(a: Podcast, b: Podcast) {
    match (a.title, b.title)
    case (None, _) => true
    case (Some(_), None) => false
    case (Some(x), Some(y)) => LexLe(x, y)
  }

  lemma ByTitleIsTotalPreorder()
    ensures Total(ByTitle) && Transitive(ByTitle)
  {
    forall a: Podcast, b: Podcast ensures ByTitle(a, b) || ByTitle(b, a) {
      if a.title.Some? && b.title.Some? {
        LexLeTotal(a.title.value, b.title.value);
      }
    }
    forall a: Podcast, b: Podcast, c: Podcast | ByTitle(a, b) && ByTitle(b, c) ensures ByTitle(a, c) {
      if a.title.Some? && b.title.Some? && c.title.Some? {
        LexLeTransitive(a.title.value, b.title.value, c.title.value);
      }
    }
  }

  /** `getLibrary`: the podcasts sorted by title. Sorting two or more
      podcasts compares every one of them at least once, so a podcast
      with a null title makes the sort raise unless it is alone. */
  method GetLibrary(lib: Model) returns (r: Result<seq<Podcast>>)
    ensures r.Err? <==> None in lib.podcasts && |lib.podcasts| >= 2
    ensures r.Err? ==> r.fault == NullDereference
    ensures r.Ok? ==> |r.value| == |lib.podcasts|
    ensures r.Ok? ==> forall k :: k in lib.podcasts ==> lib.podcasts[k].podcast in r.value
    ensures r.Ok? ==> forall p :: p in r.value ==> exists k :: k in lib.podcasts && lib.podcasts[k].podcast == p
    ensures r.Ok? ==> SortedBy(r.value, ByTitle)
  {
    if None in lib.podcasts && |lib.podcasts| >= 2 {
      return Err(NullDereference);
    }
    var listed: seq<Podcast> := [];
    var rest := lib.podcasts.Keys;
    while rest != {}
      invariant rest <= lib.podcasts.Keys
      invariant |listed| + |rest| == |lib.podcasts|
      invariant forall k :: k in lib.podcasts && k !in rest ==> lib.podcasts[k].podcast in listed
      invariant forall p :: p in listed ==> exists k :: k in lib.podcasts && lib.podcasts[k].podcast == p
      decreases |rest|
    {
      var k :| k in rest;
      listed := listed + [lib.podcasts[k].podcast];
      rest := rest - {k};
    }
    ByTitleIsTotalPreorder();
    var sorted := SortBy(listed, ByTitle);
    assert forall p :: p in sorted <==> p in listed by {
      forall p ensures p in sorted <==> p in listed {
        assert p in sorted <==> p in multiset(sorted);
        assert p in listed <==> p in multiset(listed);
      }
    }
    assert |sorted| == |multiset(sorted)| == |multiset(listed)| == |listed|;
    return Ok(sorted);
  }

  /** `getEpisode(podcastName, episodeTitle)`: an unknown podcast raises
      and changes nothing; an unknown episode raises after the selection
      has been cleared; otherwise the episode is selected and returned
      (the player is built from its link and saved position). */
  function GetEpisode(lib: Model, pn: Option<string>, et: Option<string>): (r: (Model, Result<Episode>))
    ensures pn !in lib.podcasts ==> r == (lib, Err(IllegalArgument))
    ensures pn in lib.podcasts && et !in lib.podcasts[pn].podcast.episodes ==>
              r == (lib.(current := None), Err(IllegalArgument))
    ensures r.1.Ok? ==>
              && pn in lib.podcasts && et in lib.podcasts[pn].podcast.episodes
              && r.1.value == lib.podcasts[pn].podcast.episodes[et]
              && r.0.podcasts == lib.podcasts
              && Selected(r.0, pn, et)
    ensures Valid(lib) ==> Valid(r.0)
  {
    if pn !in lib.podcasts then (lib, Err(IllegalArgument))
    else
      var entry := lib.podcasts[pn];
      if et !in entry.podcast.episodes then (lib.(current := None), Err(IllegalArgument))
      else (lib.(current := Some(Cursor(pn, et, entry.serial))), Ok(entry.podcast.episodes[et]))
  }

  /** The selection points at episode `et` of the podcast stored under
      `pn`, as it is stored now. */
  predicate Selected(lib: Model, pn: Option<string>, et: Option<string>) {
    && lib.current.Some?
    && lib.current.value.podcast == pn
    && lib.current.value.episode == et
    && Live(lib, lib.current.value)
  }

  /** The cursor still reaches an episode of the library. */
  predicate Live(lib: Model, c: Cursor) {
    && c.podcast in lib.podcasts
    && lib.podcasts[c.podcast].serial == c.serial
    && c.episode in lib.podcasts[c.podcast].podcast.episodes
  }

  /** `savePlayPos(curTime)`: with no episode ever selected (or the
      selection cleared) it dereferences null; otherwise it records the
      position on the selected episode, which is visible in the library
      only while that episode's podcast has not been replaced. */
  function SavePlayPos(lib: Model, d: Option<Duration>): (r: Result<Model>)
    ensures lib.current.None? <==> r == Err(NullDereference)
    ensures r.Ok? ==> r.value.current == lib.current && r.value.nextSerial == lib.nextSerial
    ensures r.Ok? ==> r.value.podcasts.Keys == lib.podcasts.Keys
    ensures r.Ok? && !Live(lib, lib.current.value) ==> r.value == lib
    ensures Valid(lib) && r.Ok? ==> Valid(r.value)
  {
    match lib.current
    case None => Err(NullDereference)
    case Some(c) =>
      if !Live(lib, c) then Ok(lib)
      else
        var entry := lib.podcasts[c.podcast];
        var p := entry.podcast;
        var ep := p.episodes[c.episode];
        var p' := p.(episodes := p.episodes[c.episode := ep.(position := d)]);
        Ok(lib.(podcasts := lib.podcasts[c.podcast := entry.(podcast := p')]))
  }

  /** Selecting an episode, saving a position and selecting it again
      returns the episode with that position. */
  lemma SaveThenSelect(lib: Model, pn: Option<string>, et: Option<string>, d: Option<Duration>)
    requires GetEpisode(lib, pn, et).1.Ok?
    ensures var (lib1, ep) := GetEpisode(lib, pn, et);
            && SavePlayPos(lib1, d).Ok?
            && GetEpisode(SavePlayPos(lib1, d).value, pn, et).1 == Ok(ep.value.(position := d))
  {
  }

  /** Saving a position touches the selected episode's position only:
      every other episode, and every other field, stays as it was. */
  lemma SaveChangesOnlySelected(lib: Model, d: Option<Duration>, k: Option<string>, e: Option<string>)
    requires SavePlayPos(lib, d).Ok? && k in lib.podcasts
    ensures var lib' := SavePlayPos(lib, d).value;
            && lib'.podcasts[k].serial == lib.podcasts[k].serial
            && lib'.podcasts[k].podcast.(episodes := map[]) == lib.podcasts[k].podcast.(episodes := map[])
            && lib'.podcasts[k].podcast.episodes.Keys == lib.podcasts[k].podcast.episodes.Keys
            && (e in lib.podcasts[k].podcast.episodes ==>
                  var before := lib.podcasts[k].podcast.episodes[e];
                  lib'.podcasts[k].podcast.episodes[e] ==
                    if Live(lib, lib.current.value) && lib.current.value.podcast == k && lib.current.value.episode == e
                    then before.(position := d) else before)
  {
  }

  /** Re-adding a podcast under the title of the selected one detaches
      the selection: a later save changes nothing in the library. */
  lemma ReplacedPodcastDetaches(lib: Model, path: string, fetched: Option<string>, isUri: string -> bool, d: Option<Duration>)
    requires Valid(lib) && lib.current.Some?
    requires fetched.Some? && NewPodcast(path, fetched.value, isUri).Ok?
    requires NewPodcast(path, fetched.value, isUri).value.title == lib.current.value.podcast
    requires isUri(path)
    ensures var lib' := AddPodcast(lib, path, fetched, isUri);
            SavePlayPos(lib', d) == Ok(lib')
  {
  }
}

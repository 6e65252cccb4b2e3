# PowerfulPodcastPlayer feed model

A Dafny model of the feed-text extraction engine of the podcast player's
`PodcastPlayerModel` (the `Podcast` and `Episode` inner classes) and of
the small library state around it. The Java code is not a real XML
parser. It scans the raw feed text one index at a time for trigger
strings such as `<title>`. It captures everything up to the next `</` or
`/>`, then scrubs the capture of junk characters, entities and markup.
Many of its paths raise `StringIndexOutOfBoundsException` or
`NullPointerException` instead of returning `null`. `addPodcast` swallows
every exception and skips the feed.

The model keeps these behaviours as they are:

- Java `null` is `Option.None`.
- A raised exception is `Result.Err(fault)`.
- Every `substring`/`charAt` bound the code would trip over is an explicit error path.

| file | module | models |
|---|---|---|
| results.dfy | `Results` | `Option`, `Result` and the fault kinds |
| text.dfy | `Text` | the hand-written "advance until pattern" loop, `substring`, literal `replaceAll`, `trim`, `String.compareTo` |
| sanitizer.dfy | `Sanitizer` | `cleanString`, `convertSpecialChars`, `removeHTMLLinks` |
| extractor.dfy | `TagExtractor` | `parseXML` and `terminatorSearch` |
| fields.dfy | `Fields` | `parseTitle`, `parseDescription`, `parseImageLoc`, `getLink`, `getLinkAlt` |
| sorting.dfy | `Sorting` | `Collections.sort` as insertion sort under a total preorder |
| feed.dfy | `Feed` | `parseEpisodes`, the `Podcast` constructor, `Episode`, `getEpisodes`, `Podcast.getEpisode` |
| library.dfy | `PlayerModel` | the library map, `addPodcast`, `getLibrary`, `getEpisode`, `savePlayPos` |

Some fragilities of the code are modelled rather than fixed:

- **The window freeze in `terminatorSearch`.** The comparison window stops moving once the count index reaches `|text| - |trigger|`. A terminator in the last `|trigger| + 1` characters is therefore never seen, and the loop then runs a `substring` off the end and raises (`ExtractUnterminated`).
- **`cleanString` on all-junk text.** It raises.
- **`getLinkAlt` without a `<link>`.** It raises.
- **`parseImageLoc` when no image tag exists.** It dereferences null. As a result, a feed without an image is never added.

Some outcomes differ from what a reader of the feed format might expect, and the model follows the code:

- **Anchors.** Only the first anchor's opening tag is removed. Its text and `</a>` stay: `<a href="http://spam">click here</a> thanks` becomes `click here</a> thanks`.
- **Item blocks.** The item loop resumes one character after an `<item>`, not after its `</item>`. A block runs up to and including the `<` of `</item>`.
- **Image prefix.** The four characters dropped from an `<image>` answer are dropped after `cleanString`.
- **Titles.** A podcast or episode title may be `null` or empty.

The `== ""` checks in `parseXML` and `parseEpisodes` compare references. They are modelled as emptiness tests. Either way the scan loops do no work on empty text.

The program's `curEp` is an object reference. The model replaces it with a cursor made of three parts:

- the podcast key
- the episode key
- the serial number the library gave the podcast when it was stored

`addPodcast` gives a re-added podcast a new serial. A cursor into the replaced podcast therefore no longer reaches the library, just as the old object no longer does. `savePlayPos` through such a cursor changes nothing visible (`ReplacedPodcastDetaches`).

## Model

| member | source | states |
|---|---|---|
| Text.AdvanceTo | src/model/PodcastPlayerModel.java:585-588 | the scanning loop stops at the first occurrence at or after its start, with no earlier occurrence. Without an occurrence it raises, except that a one-character pattern stops on the last character |
| Text.ReplaceAll | src/model/PodcastPlayerModel.java:716-723 | literal replace-all never lengthens the text when the replacement is no longer than the pattern |
| Text.ReplaceAllFirst | src/model/PodcastPlayerModel.java:716-723 | the text before the first occurrence is kept, that occurrence becomes the replacement, and replacing resumes right after it |
| Text.ReplaceAllKeepsChars | src/model/PodcastPlayerModel.java:716-723 | every character of the result comes from the input or from the replacement |
| Text.ReplaceAllNoMatch | src/model/PodcastPlayerModel.java:716-723 | a text in which the pattern occurs nowhere comes back unchanged |
| Text.Substring | src/model/PodcastPlayerModel.java:817 | `substring(b, e)` raises unless `b <= e <= length`, and otherwise yields the `e - b` characters from `b` |
| Text.Trim | src/model/PodcastPlayerModel.java:659 | `trim()` never lengthens the text, leaves no character at or below U+0020 at either end, and yields "" exactly when every character is such a character |
| Text.TrimIsSlice | src/model/PodcastPlayerModel.java:659 | the trimmed text is one contiguous slice of the input, and everything cut from either end is at or below U+0020 |
| Text.LexLeTotal | src/model/PodcastPlayerModel.java:407-409 | any two titles are ordered one way or the other by `compareTo` |
| Text.LexLeAntisymmetric | src/model/PodcastPlayerModel.java:407-409 | titles ordered both ways by `compareTo` are equal |
| Text.LexLeTransitive | src/model/PodcastPlayerModel.java:407-409 | the `compareTo` order on titles is transitive |
| Sanitizer.DropTrailing | src/model/PodcastPlayerModel.java:665-671 | trailing ` `, `/`, `<`, `"` are removed; it raises exactly when the text is all such characters |
| Sanitizer.DropLeading | src/model/PodcastPlayerModel.java:674-678 | leading `<`, `/`, `>`, ` `, `"` are removed; it raises exactly when the text is all such characters |
| Sanitizer.DropDanglingPrefixes | src/model/PodcastPlayerModel.java:679-696 | the result is a suffix of the input: a leading `href=` goes with the character after it when the text is longer than 5, then a leading `![CDATA[` when the rest is longer than 8, and a second `![CDATA[<p>` only when it follows that stripped `![CDATA[`; anything else is left alone |
| Sanitizer.CDataDropped | src/model/PodcastPlayerModel.java:685-696 | `![CDATA[` followed by non-empty text `X` that does not start with `![CDATA[<p>` cleans to `X` |
| Sanitizer.CDataParagraphKeepsTag | src/model/PodcastPlayerModel.java:685-696 | `![CDATA[<p>X` loses only `![CDATA[`; the longer check runs after that prefix is gone, so the `<p>` stays |
| Sanitizer.CleanString | src/model/PodcastPlayerModel.java:654-699 | blank text gives ""; it raises exactly when the trimmed text is non-empty and all leading junk; otherwise the result is the dangling-prefix clean-up of the trimmed text with exactly its leading junk and its trailing junk cut off, so it is never longer and never ends in trailing junk |
| Sanitizer.CleanHrefAttribute | src/model/PodcastPlayerModel.java:679-684 | ` href="X"` cleans to exactly `X` when `X` is non-empty, does not start with `![CDATA[` followed by more text, and does not end in a trailing-junk character |
| Sanitizer.ApplyTable | src/model/PodcastPlayerModel.java:716-732 | the substitution chain never lengthens the text, introduces only replacement characters, and changes nothing when no pattern occurs |
| Sanitizer.DropNonAscii | src/model/PodcastPlayerModel.java:726 | the regular-expression filter leaves only ASCII and only characters of the input, leaves ASCII text unchanged, and keeps a single character exactly when it is ASCII |
| Sanitizer.DropNonAsciiConcat | src/model/PodcastPlayerModel.java:726 | the filter works character by character: filtering a concatenation concatenates the filtered parts |
| Sanitizer.RemoveHTMLLinks | src/model/PodcastPlayerModel.java:752-777 | a successful removal never lengthens the text and keeps only characters of it |
| Sanitizer.SpliceOut | src/model/PodcastPlayerModel.java:772-775 | the final splice keeps the text before the anchor and after the `">`, or returns the text unchanged when the index is past its end |
| Sanitizer.RemoveLinkSplice | src/model/PodcastPlayerModel.java:752-777 | with `i` the first `<a href="` and `j` the first `">` from `i`, the result is `s[..i] + s[j+2..]`; with no `">` it raises |
| Sanitizer.ConvertSpecialChars | src/model/PodcastPlayerModel.java:713-740 | null passes through; a non-null result is all ASCII and no longer than the input |
| Sanitizer.ConvertPlainText | src/model/PodcastPlayerModel.java:713-740 | ASCII text without entities, deleted markup or anchors comes out unchanged |
| Sanitizer.ConvertRemovesFirstAnchorTag | src/model/PodcastPlayerModel.java:733-737 | in otherwise plain text only the first anchor's opening tag is deleted; anchor text, `</a>` and later anchors stay; an unclosed tag raises |
| Sanitizer.DecodesAmpersand | src/model/PodcastPlayerModel.java:716-740 | in text otherwise free of entities, markup and non-ASCII characters, one `&amp;` decodes to `&` and nothing else changes |
| TagExtractor.EndTag | src/model/PodcastPlayerModel.java:429 | the closing tag is the trigger with `/` inserted after its first character |
| TagExtractor.ParseXML | src/model/PodcastPlayerModel.java:427-436 | an empty trigger raises, and empty text yields null |
| TagExtractor.FindTrigger | src/model/PodcastPlayerModel.java:438-446 | null when the trigger occurs at no offset below `|text| - |trigger|`; otherwise the terminator search from its first occurrence |
| TagExtractor.ParseXMLAtFirst | src/model/PodcastPlayerModel.java:427-446 | when the trigger first occurs at `i`, below `|text| - |trigger|`, `parseXML` is the terminator search from `i` |
| TagExtractor.TerminatorSearch | src/model/PodcastPlayerModel.java:464-493 | for a trigger of the parser found at `index`, the result is `cleanString` of the text after the trigger up to the first `</` or `/>` when that pair lies before the freeze point, and a raise when no pair does |
| TagExtractor.LoopCapturesSpan | src/model/PodcastPlayerModel.java:472-491 | whatever the loop captures starts right after the trigger and is a span of the text ending before its last character |
| TagExtractor.FrozenWindowRaises | src/model/PodcastPlayerModel.java:472-491 | once the window stops moving without a terminator, the loop ends in an out-of-range `substring` |
| TagExtractor.MovingWindowHit | src/model/PodcastPlayerModel.java:464-493 | while the window moves, the loop captures exactly the text up to the first terminator pair |
| TagExtractor.MovingWindowOverrun | src/model/PodcastPlayerModel.java:464-493 | with no terminator pair before the freeze point the loop raises |
| TagExtractor.ExtractFound | src/model/PodcastPlayerModel.java:427-493 | the result is `cleanString` of the text between the first trigger occurrence and the first following `</` or `/>`, whichever tag it closes |
| TagExtractor.ExtractAbsent | src/model/PodcastPlayerModel.java:438-446 | no occurrence below `|text| - |trigger|` yields null, even when the trigger ends the text |
| TagExtractor.ExtractUnterminated | src/model/PodcastPlayerModel.java:464-493 | a terminator only in the last `|trigger| + 1` characters, or none at all, makes the extractor raise instead of returning null |
| Fields.FirstFound | src/model/PodcastPlayerModel.java:530-537 | for any lookup, the chain yields null exactly when every trigger yields null; otherwise it yields the answer of some trigger all of whose predecessors yielded null |
| Fields.FirstFoundAt | src/model/PodcastPlayerModel.java:550-562 | the first trigger with a non-null answer (or a raise) decides the chain |
| Fields.FromFirst | src/model/PodcastPlayerModel.java:582-586 | the scan-then-`substring(index)` step keeps a suffix of its input |
| Fields.FromFirstAt | src/model/PodcastPlayerModel.java:582-586 | with a first occurrence at `j`, the step keeps exactly the text from `j` on |
| Fields.FromFirstNone | src/model/PodcastPlayerModel.java:590-593 | with no occurrence of a pattern longer than one character, the scan runs off the end and raises |
| Fields.ParseTitle | src/model/PodcastPlayerModel.java:530-538 | `<title>` wins when it answers; otherwise `<itunes:summary>` |
| Fields.ParseDescription | src/model/PodcastPlayerModel.java:550-563 | `<itunes:summary>`, else `<p>`, else `<description><![CDATA[` |
| Fields.ParseImageLoc | src/model/PodcastPlayerModel.java:505-518 | never null on success; the first two triggers as a chain; the `<image>` answer loses four characters, raises when shorter, and a null answer is dereferenced |
| Fields.TitleFromTag | src/model/PodcastPlayerModel.java:530-538 | a well-terminated `<title>` element yields the cleaned element text |
| Fields.NoImageRaises | src/model/PodcastPlayerModel.java:512-514 | a text with none of the image triggers makes `parseImageLoc` raise |
| Fields.GetLink | src/model/PodcastPlayerModel.java:575-607 | without `<enclosure` the link comes from `getLinkAlt` |
| Fields.QuotedValue | src/model/PodcastPlayerModel.java:597-603 | the value lies inside the text after `url="` and contains no quote |
| Fields.EnclosureUrl | src/model/PodcastPlayerModel.java:580-603 | with an `<enclosure` and a later `url="`, the link is the quoted value read from that first `url="` |
| Fields.LinkFromEnclosure | src/model/PodcastPlayerModel.java:580-603 | the link is the text between the first `url="` after the first `<enclosure` and the next quote |
| Fields.LinkUnquoted | src/model/PodcastPlayerModel.java:597-603 | an unterminated attribute value loses its last character; nothing after `url="` raises |
| Fields.LinkWithoutUrl | src/model/PodcastPlayerModel.java:590-594 | an `<enclosure` without a following `url="` raises |
| Fields.GetLinkAlt | src/model/PodcastPlayerModel.java:620-643 | without `<link>` the `substring(6, 0)` raises |
| Fields.LinkFromLinkTag | src/model/PodcastPlayerModel.java:620-641 | the link is the text between the first `<link>` and the next `</link>`, which never overlaps it |
| Fields.LinkTagUnclosed | src/model/PodcastPlayerModel.java:633-637 | a `<link>` without a later `</link>` raises |
| Sorting.SortBy | src/model/PodcastPlayerModel.java:382-386 | `Collections.sort` yields a sorted permutation |
| Feed.ItemEnd | src/model/PodcastPlayerModel.java:815-819 | a block ends one past the `<` of the first `</item>` after its start; no `</item>` raises |
| Feed.BuildEpisode | src/model/PodcastPlayerModel.java:824-837 | a built episode has the loop's index, no position, the resolved link (checked as a URI) and ASCII title and description, and it is null-titled exactly when no title was parsed |
| Feed.BuildEpisodeSteps | src/model/PodcastPlayerModel.java:824-838 | an episode is built exactly when title, description and link parse, the link is a URI and both conversions succeed; its title and description are the converted values |
| Feed.BlockEpisode | src/model/PodcastPlayerModel.java:813-838 | an `<item>` without a later `</item>` raises; otherwise the episode is the one built from the block running to one past the `<` of that `</item>`, numbered by the loop count |
| Feed.ItemStep | src/model/PodcastPlayerModel.java:812-841 | one loop body succeeds exactly when its block builds an episode and otherwise fails with that fault; on success it puts the episode under its title, keeps every old key, keeps the map keyed by title with distinct indices, and adds at most one entry |
| Feed.ScanItems | src/model/PodcastPlayerModel.java:807-842 | the item loop only ever adds keys to the map it started from |
| Feed.ParseEpisodes | src/model/PodcastPlayerModel.java:792-844 | empty text gives no episodes; the episodes are keyed by title, have distinct indices below the number of `<item>` offsets, and have no positions |
| Feed.ParseEpisodesByItems | src/model/PodcastPlayerModel.java:792-843 | parsing succeeds exactly when every `<item>` block builds; a failure is that of the first block that does not; a success is the built episodes put into an empty map in order |
| Feed.ParseIsPutAll | src/model/PodcastPlayerModel.java:807-842 | the item loop equals building every block in order and then putting the episodes into an empty map in that order |
| Feed.Episodes | src/model/PodcastPlayerModel.java:807-841 | building the blocks at a list of offsets succeeds exactly when each block builds with its running number; the values are those blocks' episodes, and a failure is the first block's |
| Feed.PutAll | src/model/PodcastPlayerModel.java:839 | putting a list of episodes adds exactly their titles as keys and leaves every other key alone |
| Feed.PutAllLatest | src/model/PodcastPlayerModel.java:839 | the episode stored under a title is the last one in the list with that title |
| Feed.FoldIsPutAll | src/model/PodcastPlayerModel.java:807-842 | from any offsets, count and starting map, the loop is "build all, then put all" |
| Feed.ItemStoredUnderTitle | src/model/PodcastPlayerModel.java:807-842 | when every block builds, each item's title is a key, and the episode under it is the last item with that title, at or after the given item |
| Feed.MissingItemCloseRaises | src/model/PodcastPlayerModel.java:815-819 | an `<item>` with no later `</item>`, after items that all build, makes the parse raise |
| Feed.ItemStarts | src/model/PodcastPlayerModel.java:808-812 | exactly the offsets below `|text| - 6` holding `<item>`, increasing |
| Feed.ScanIsFold | src/model/PodcastPlayerModel.java:808-844 | the item loop applies its body to exactly those offsets, in order, numbering from 0 |
| Feed.FoldInvariant | src/model/PodcastPlayerModel.java:808-844 | the loop keeps the map keyed by title with distinct indices below the count and at most one entry per item |
| Feed.FoldSnoc | src/model/PodcastPlayerModel.java:807-842 | the loop over one more offset is the loop over the earlier offsets followed by one more body step, numbered by the count so far; an earlier failure stops it |
| Feed.NewPodcast | src/model/PodcastPlayerModel.java:306-330 | an invalid path raises; on success the link is the path, the image is the parsed (valid) image, title and description are ASCII, and the episodes are those `parseEpisodes` builds |
| Feed.NewPodcastSteps | src/model/PodcastPlayerModel.java:306-329 | a podcast is built exactly when the path is a URI, title, image and description parse, both conversions succeed, the image is a URI and the episodes parse; title and description are the converted values |
| Feed.PodcastEpisodesWellFormed | src/model/PodcastPlayerModel.java:306-330 | a constructed podcast stores episodes under their titles with distinct indices and no positions |
| Feed.FeedWithoutImageRejected | src/model/PodcastPlayerModel.java:315 | a feed with none of the image tags never yields a podcast |
| Feed.EmptyFeedRejected | src/model/PodcastPlayerModel.java:306-330 | empty text never yields a podcast |
| Feed.ByIndexIsTotalPreorder | src/model/PodcastPlayerModel.java:964-972 | `Episode.compareTo` orders by index, totally and transitively |
| Feed.GetEpisodes | src/model/PodcastPlayerModel.java:382-386 | the list is as long as the map, holds every stored episode and nothing else, in ascending index order |
| Feed.FindEpisode | src/model/PodcastPlayerModel.java:395-397 | the lookup finds an episode exactly when the title is a key, and the episode found carries that title |
| PlayerModel.Empty | src/model/PodcastPlayerModel.java:61-64 | a new model is empty, valid and has no episode selected |
| PlayerModel.AddPodcast | src/model/PodcastPlayerModel.java:94-106 | any failure leaves the library unchanged; success stores the podcast under its title, replacing only that key, and keeps the library valid |
| PlayerModel.Store | src/model/PodcastPlayerModel.java:100 | `library.put` stores the podcast under its title, keeps every other key and the selection, and keeps the library valid when the podcast's episodes are keyed by title |
| PlayerModel.ByTitleIsTotalPreorder | src/model/PodcastPlayerModel.java:407-409 | `Podcast.compareTo` orders totally and transitively |
| PlayerModel.GetLibrary | src/model/PodcastPlayerModel.java:78-82 | raises exactly when a null title sits among two or more podcasts; otherwise the list is as long as the library, holds every stored podcast and nothing else, sorted by title |
| PlayerModel.GetEpisode | src/model/PodcastPlayerModel.java:165-177 | an unknown podcast raises with nothing changed; an unknown episode raises with the selection cleared; otherwise the stored episode is returned and selected |
| PlayerModel.SavePlayPos | src/model/PodcastPlayerModel.java:200-202 | with no selection it dereferences null; otherwise it keeps every key, the selection and the serial counter, and changes nothing through a detached selection |
| PlayerModel.SaveThenSelect | src/model/PodcastPlayerModel.java:942-954 | selecting, saving a position and selecting again returns the episode with that position |
| PlayerModel.SaveChangesOnlySelected | src/model/PodcastPlayerModel.java:200-202 | a save changes only the selected episode's position |
| PlayerModel.ReplacedPodcastDetaches | src/model/PodcastPlayerModel.java:94-106 | after the selected podcast is re-added, a save changes nothing in the library |

## Left out

- Fetching the feed (`getSiteContent`, the fetch inside `addPodcast`) is network I/O. `AddPodcast` takes the fetched text, with `None` for a failed fetch.
- `new URI(...)` is a foreign parser. It is the parameter `isUri`, and a `false` answer is the `URISyntaxException`. A null path is an invalid one.
- `Media`, `MediaPlayer` and `setStartTime` in `getEpisode`, the observer notification and `getLocalFile` are JavaFX playback and UI glue. `GetEpisode` returns the episode the player would be built from. `Duration` is an opaque value.
- `storeModel` and `loadModel` are object serialization and file I/O.
- `getPodcastRSSContent` only calls `addPodcast` on fixed URLs.
- The Java `Podcast` constructor's branch for null text is left out. `addPodcast` never passes null text.
- The accessors `getTitle`, `getDescription`, `getLink`, `getImage` and the `Episode` getters are left out. They are field reads of the datatypes.
- `Episode.parent` is left out. It is replaced by the episode living inside its podcast's map.
- The view, the controller and the launcher are UI and playback code, not part of this model.
- PlayerModel.GetLibrary: the raise on a null title is derived from the fact that sorting two or more elements compares each of them at least once. The comparisons `Collections.sort` actually performs are not modelled.
- Sorting.SortBy: `Collections.sort` is a merge sort. It is modelled as insertion sort, which gives the same result here because no two podcasts share a title and no two episodes share an index.

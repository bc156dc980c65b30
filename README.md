# Feed aggregator with a seen-set window — Dafny model

This project models `update_feeds.py`, a script that merges several RSS/Atom
feeds into one RSS document without repeating articles. One run does the
following:

1. It loads the *seen set* from a text file (`index.txt`), one identifier per
   line. A missing file gives the empty set.
2. It walks every feed in configuration order and every entry in feed order.
   It derives each entry's identifier: the SHA-256 hex digest of the entry's
   first truthy `id`, `link` or `title`. An entry whose identifier is not seen
   yet becomes a *candidate*, and its identifier is added to the seen set at
   once, so later duplicates in the same run are dropped.
3. It sorts the candidates newest first on a *sort key*. The key is the
   published time when the entry has one. Otherwise it is the local time read
   while that key is computed. The sort is stable.
4. It keeps the first `MAX_ARTICLES` candidates.
5. It overwrites the seen-set file with exactly the kept identifiers. The seen
   set is therefore a sliding window aligned with the output, not an archive.
6. It builds one `<item>` per kept article. Absent keys get defaults.

Modules, one file each:

| module | file | models |
|---|---|---|
| `Feed` | `feed.dfy` | entries, `(entry, uid)` articles, items, times |
| `Identity` | `identity.dfy` | `get_id` |
| `SeenStore` | `seen_store.dfy` | `load_seen`, `save_seen`, the one-id-per-line format, `str.strip` |
| `Collect` | `collect.dfy` | the nested deduplication loop of `main` |
| `Ordering` | `ordering.dfy` | `sort_key` and the stable descending in-place sort |
| `Aggregator` | `aggregator.dfy` | trim, seen-set rebuild, the item loop, and the whole run |

Several parts of the environment are parameters:

- The hash is a parameter `hash: string -> string`.
- The clock is `clock: nat -> Time`. `clock(i)` is what `datetime.now()` returns while the key of candidate `i` is computed.
- The formatted UTC time is `stampAt: nat -> string`, read once per item.
- The seen-set file is its contents, an `Option<string>` where `None` means the file is absent.
- The parsed feeds are a `seq<seq<Entry>>`.

In an `Entry`, `None` means the key is absent from the entry dictionary, and `Some("")` means it is present but empty. For `publishedParsed`, `None` stands for "absent or `None`": feedparser stores `None` for a date it cannot parse, and `sort_key` treats both the same way.

The code is followed where its behaviour might not be expected:

- The item defaults (`"No title"`, `""`) apply only when a key is absent. A present but empty value is copied as it is. Each field is decided on its own, whatever the other keys hold (`AbsentFieldsFallBack`, `PresentFieldsAreKept`).
- The script has no `try`/`except` around a fetch. `feedparser.parse` reports most fetch failures itself, by returning an empty entry list. The model represents such a feed as an empty `seq<Entry>`. An empty feed changes neither the candidates nor the kept articles (`EmptyFeedContributesNothing`).
- A second run over the same feeds is not empty in general. A run in which every entry was already seen shows nothing and saves the empty set. The next run over the same entries therefore collects all of them again and shows up to `maxArticles` of them (`SeenEntryReturnsOnTheNextRun`, `DroppedEntriesReappear`). When the feeds carry at most `maxArticles` distinct identifiers, output alternates in this way for as long as the feeds stay the same. When they carry more, the run after a full one collects the entries that were not kept and shows them, so output does not fall empty again.
- Candidates without a published time are not tied on one shared "now". Each one gets its own clock reading, taken in list order. When the clock advances between two of them, the one collected later is shown first (`AdvancingClockReversesUndated`). When two readings are equal, stability keeps collection order (`SortDescStable`).

## Model

| member | source | states |
|---|---|---|
| `Identity.FirstTruthy` | update_feeds.py:29 | the result is "" exactly when no option is truthy; otherwise it is the value of the first truthy option, all earlier ones being falsy |
| `Identity.IdentityKeyIsFirstTruthy` | update_feeds.py:29 | the identity key is the first truthy value among id, link and title, or "" when none is; an empty value falls through |
| `Identity.IdDecides` | update_feeds.py:29-30 | two entries with the same truthy id get the same identifier, whatever their links and titles |
| `Identity.SameKeySameUid` | update_feeds.py:27-30 | entries with equal identity keys get equal identifiers |
| `Identity.AnonymousEntriesCollide` | update_feeds.py:29-30 | every entry without a truthy id, link or title gets the digest of "" |
| `SeenStore.Strip` | update_feeds.py:35 | `strip()` returns an infix that neither starts nor ends with whitespace, with only whitespace cut on either side |
| `SeenStore.FileLinesCover` | update_feeds.py:34-35 | the lines iterated from a file concatenate back to its whole contents |
| `SeenStore.LoadSeen` | update_feeds.py:32-36 | a missing file loads as the empty set; no loaded identifier starts or ends with whitespace |
| `SeenStore.SaveSeen` | update_feeds.py:38-41 | writes each member of the set exactly once, one per line, in some order; when every identifier is clean, loading the written text gives back the same set |
| `SeenStore.HexDigestIsClean` | update_feeds.py:30 | a 64-digit lower-case hex digest has no line break and no surrounding whitespace |
| `SeenStore.FileLinesAppend` | update_feeds.py:34-35 | a text is cut into lines independently on either side of a line end |
| `SeenStore.FileLinesOfRender` | update_feeds.py:34-41 | reading back what `save_seen` wrote yields one line per identifier, the identifier followed by a line end |
| `SeenStore.StripLine` | update_feeds.py:35 | stripping a written line gives back its clean identifier |
| `SeenStore.SaveThenLoad` | update_feeds.py:32-41 | round trip: load after save returns exactly the saved identifiers, when they are clean |
| `Collect.CollectNew` | update_feeds.py:44-55 | the loop's candidate list is the reference list `Fresh` over all entries in feed, then entry, order, and the final seen set is the loaded set plus the candidate identifiers |
| `Collect.CollectFeed` | update_feeds.py:51-55 | the inner loop extends the candidate list exactly as the reference list does over one feed's entries, keeping seen = loaded plus candidates |
| `Collect.FreshIsNewAndDistinct` | update_feeds.py:49-55 | candidate identifiers are pairwise distinct and are exactly the visited identifiers that were not loaded |
| `Collect.NothingNewNoCandidates` | update_feeds.py:53 | when every visited identifier was loaded there is no candidate |
| `Collect.FreshKeepsFirstOccurrence` | update_feeds.py:49-55 | each candidate holds the first entry carrying its identifier, and candidates follow first-occurrence order |
| `Collect.FreshRepresentsEveryNewEntry` | update_feeds.py:49-55 | every fetched entry whose identifier was not loaded is represented by exactly one candidate |
| `Ordering.BeforeIsStrictTotalOrder` | update_feeds.py:61-63 | the field-by-field time comparison is irreflexive, asymmetric and total, and its negation is transitive |
| `Ordering.SortKey` | update_feeds.py:58-62 | an entry with a parsed published time gets a key at second precision (`SortKeyOfDated`: exactly that time); one without is keyed by the clock reading |
| `Ordering.SortDescPermutes` | update_feeds.py:63 | the sorted list is a permutation of the keyed candidates |
| `Ordering.SortDescNewestFirst` | update_feeds.py:63 | the sorted list is non-increasing in key |
| `Ordering.SortDescStable` | update_feeds.py:63 | for every key, the elements with that key keep their relative order (stable with `reverse=True`) |
| `Ordering.SortDescKeepsDistinctUids` | update_feeds.py:63 | sorting neither merges nor duplicates identifiers |
| `Ordering.BeforeTransitive` | update_feeds.py:61-63 | the field-by-field time comparison is transitive |
| `Ordering.SortDescOfAscending` | update_feeds.py:63 | candidates given strictly oldest first come out exactly reversed, newest first |
| `Ordering.SortThreeAscending` | update_feeds.py:63 | three elements given oldest first come out newest first |
| `Ordering.SortNewestFirst` | update_feeds.py:63 | the in-place insertion sort leaves the array equal to the stable descending sort of its old contents |
| `Ordering.InsertInPlace` | update_feeds.py:63 | one pass moves the next element left past the strictly older ones and leaves the rest of the array alone |
| `Aggregator.SortCandidates` | update_feeds.py:58-63 | computes one key per candidate in list order, then returns the sorted keyed list |
| `Aggregator.Take` | update_feeds.py:66 | the slice has length min(max, \|s\|) and is a prefix of `s` |
| `Aggregator.RetainedIsNewestWindow` | update_feeds.py:63-66 | the kept list is the first min(max, \|candidates\|) sorted candidates, newest first; no dropped candidate is newer than a kept one; kept identifiers are distinct and none was loaded |
| `Aggregator.RetainedAreCandidates` | update_feeds.py:63-66 | every kept article is a candidate |
| `Aggregator.FreshUidsAreDigests` | update_feeds.py:30 | every candidate identifier is a hex digest |
| `Aggregator.SavedSetIsWindow` | update_feeds.py:66-69 | the saved set has one identifier per kept article, at most max of them, and drops every identifier loaded at the start |
| `Aggregator.AllSeenGivesEmptyOutput` | update_feeds.py:53-69 | when every fetched entry was already seen, nothing is kept and the saved set is empty |
| `Aggregator.DroppedEntriesReappear` | update_feeds.py:44-69 | an entry whose identifier is not in the saved set is collected again by the next run that fetches it |
| `Aggregator.SeenEntryReturnsOnTheNextRun` | update_feeds.py:44-69 | a run over an already-seen entry shows nothing and saves nothing, so the following run shows that entry again |
| `Aggregator.SlidingWindowExample` | update_feeds.py:49-69 | with room for two, new entries A, B and C published in that order give [C, B], and only C and B are saved |
| `Aggregator.NewerShownFirst` | update_feeds.py:58-63 | both candidates are shown, and the one with the strictly newer key comes before the other |
| `Aggregator.AdvancingClockReversesUndated` | update_feeds.py:60-63 | both undated candidates are shown, and the later-collected one comes first when the clock advanced between their keys |
| `Aggregator.BuildItems` | update_feeds.py:79-86 | one item per kept article, in kept order, each built from its article and the time read for it |
| `Aggregator.AbsentFieldsFallBack` | update_feeds.py:81-85 | each absent key, whatever the others hold, takes its own default: "No title", "", "", and the current time for pubDate |
| `Aggregator.PresentFieldsAreKept` | update_feeds.py:81-85 | each present key, whatever the others hold and even when its value is empty, is copied unchanged and not replaced by its default |
| `Aggregator.Run` | update_feeds.py:44-86 | the whole run: the written index loads back as exactly the kept identifiers; there are as many items as kept articles, at most max, each built from its kept article |
| `Feed.UidSetComprehension` | update_feeds.py:69 | the identifier set of the kept list is `set(uid for _, uid in all_articles)` |
| `Identity.IdentityKey` | update_feeds.py:29 | the string an entry is hashed by; `IdentityKeyIsFirstTruthy` proves it is the first truthy of id, link and title, or "" |
| `Identity.EmptyKeyOnlyForAnonymous` | update_feeds.py:29 | the identity key is empty only when no field is truthy |
| `Identity.Uid` | update_feeds.py:27-30 | `get_id`: the hash of the identity key; `UidIsDigest` and `IdDecides` state what it promises |
| `Identity.UidIsDigest` | update_feeds.py:30 | an identifier is a 64-digit hex digest when the hash produces digests |
| `Collect.Fresh` | update_feeds.py:49-55 | reference list of candidates after n entries; `CollectNew` is proved equal to it and `FreshIsNewAndDistinct`, `FreshKeepsFirstOccurrence` and `FreshRepresentsEveryNewEntry` state what it contains |
| `Ordering.Before` | update_feeds.py:61-63 | naive `datetime` order, field by field; it never relates a time to itself, and `BeforeIsStrictTotalOrder` proves it a strict total order |
| `Ordering.PublishedTime` | update_feeds.py:61 | `datetime(*published_parsed[:6])`: the six parsed fields, microsecond 0 |
| `Ordering.SortKeyOfDated` | update_feeds.py:60-61 | a dated entry's key is exactly its published time |
| `Ordering.Decorate` | update_feeds.py:58-63 | one key per candidate, in list order, candidate `i` keyed with clock reading `i` |
| `Ordering.SortDesc` | update_feeds.py:63 | the stable descending sort; it keeps the length, and its permutation, order and stability are the `SortDesc*` lemmas |
| `Aggregator.Retained` | update_feeds.py:63-66 | `new_articles[:MAX_ARTICLES]` after the sort, of length min(max, candidates); `RetainedIsNewestWindow` states which ones |
| `Aggregator.EmptyFeedContributesNothing` | update_feeds.py:49-55 | a feed with no entries changes neither the candidates nor the kept articles |
| `Aggregator.ItemOf` | update_feeds.py:81-85 | an item carries the article's identifier as guid, its title when present, and the current time as pubDate when no published string is present |
| `SeenStore.IsSpace` | update_feeds.py:35 | Python's `str.isspace`: includes the ASCII blanks, and no hex digit is whitespace |
| `SeenStore.FileLines` | update_feeds.py:34-35 | the lines of a text: none when the text is empty, each non-empty and ending at its first line break, all but the last ending with one |
| `SeenStore.Render` | update_feeds.py:38-41 | the text `save_seen` writes for an order of identifiers; it is empty or ends with a line break |

## Left out

- Fetching and parsing feeds with `feedparser.parse` (update_feeds.py:50). The parsed entries are an input. The script has no `try`/`except`. A failure that feedparser turns into an empty entry list is an empty inner `seq<Entry>` in the model. An exception that escapes feedparser would end the script, and the model does not represent it.
- The inside of SHA-256 (update_feeds.py:30), including UTF-8 encoding of the key. `hash` is a parameter. The only thing required of it is its output format, stated as the requirement `HexDigests(hash)` where the seen-set round trip needs it. Injectivity is not required.
- File I/O (`os.path.exists`, `open`, update_feeds.py:33-41). A file is modelled by its contents. I/O errors are not modelled.
- Text-mode newline translation: lines are split at `'\n'` only. A clean identifier (`IsCleanId`) holds no `'\r'` either, so hex digests are unaffected.
- `datetime(*published_parsed[:6])` can raise on out-of-range fields. The model takes the fields as they are. The other struct_time fields are not modelled. A `published_parsed` that is present but `None` is falsy, and the model writes it as `None`, the same as an absent one. A present struct_time is never empty, so `Some` means truthy.
- Python's sort algorithm is not modelled. `SortDesc`, a stable insertion, stands for its result.
- The XML tree, the channel header with its `lastBuildDate`, serialisation and `print` (update_feeds.py:47, 72-77, 88-89).
- `MAX_ARTICLES` (update_feeds.py:25) is a parameter `maxArticles: nat`. Its comment says 500 while its value is 200. Negative slice bounds are not modelled.
- Aggregator.Run: requires `HexDigests(hash)`, so that the saved identifiers survive the one-per-line format; a hash that produced line breaks or surrounding whitespace is not covered.

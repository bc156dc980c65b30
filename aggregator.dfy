/** One aggregation run (update_feeds.py, `main`): load the seen set,
    collect the entries not seen yet, sort them newest first, keep the head
    of the list, save exactly the identifiers kept, and build one item per
    kept article. */
module Aggregator {
  import opened Feed
  import opened Identity
  import opened SeenStore
  import opened Collect
  import opened Ordering

  /** The candidates `new_articles` of a run that loaded `seen0`. */
  function Candidates(seen0: set<string>, feeds: seq<seq<Entry>>, hash: string -> string): seq<Article> {
    var es := Flatten(feeds);
    Fresh(seen0, es, |es|, hash)
  }

  /** The candidates with their keys, sorted newest first. */
  function Ranked(cands: seq<Article>, clock: nat -> Time): seq<Keyed> {
    SortDesc(Decorate(cands, clock))
  }

  /** `s[:max]` for a non-negative `max`. */
  function Take<T>(s: seq<T>, max: nat): (r: seq<T>)
    ensures |r| == if |s| <= max then |s| else max
    ensures r == s[..|r|]
  {
    if |s| <= max then s else s[..max]
  }

  /** The articles a run keeps: the head of the sorted candidates. */
  function Retained(seen0: set<string>, feeds: seq<seq<Entry>>, clock: nat -> Time, max: nat,
                    hash: string -> string): (r: seq<Article>)
    ensures var c := Candidates(seen0, feeds, hash);
            |r| == if |c| <= max then |c| else max
  {
    Undecorate(Take(Ranked(Candidates(seen0, feeds, hash), clock), max))
  }

  /** The `<item>` built for an article; `stamp` is the formatted UTC time
      read while building it. A default is used only when the key is absent. */
  function ItemOf(a: Article, stamp: string): (it: Item)
    ensures it.guid == a.uid
    ensures a.entry.title.Some? ==> it.title == a.entry.title.value
    ensures a.entry.published.None? ==> it.pubDate == stamp
  {
    Item(a.entry.title.GetOr("No title"), a.entry.link.GetOr(""), a.uid,
         a.entry.summary.GetOr(""), a.entry.published.GetOr(stamp))
  }

  /** The item loop (update_feeds.py:79-86); `stampAt(i)` is the formatted
      UTC time read while building item `i`. */
  method BuildItems(kept: seq<Article>, stampAt: nat -> string) returns (items: seq<Item>)
    ensures |items| == |kept|
    ensures forall i :: 0 <= i < |kept| ==> items[i] == ItemOf(kept[i], stampAt(i))
  {
    items := [];
    var i := 0;
    while i < |kept|
      invariant 0 <= i <= |kept| && |items| == i
      invariant forall k :: 0 <= k < i ==> items[k] == ItemOf(kept[k], stampAt(k))
    {
      items := items + [ItemOf(kept[i], stampAt(i))];
      i := i + 1;
    }
  }

  /** The whole run. `index` is the contents of the seen-set file (`None`
      when it does not exist); `newIndex` is what is written back. `clock(i)`
      is the local time read while the sort key of candidate `i` is computed. */
  method Run(index: Option<string>, feeds: seq<seq<Entry>>, maxArticles: nat, hash: string -> string,
             clock: nat -> Time, stampAt: nat -> string)
    returns (newIndex: string, items: seq<Item>)
    requires HexDigests(hash)
    ensures var kept := Retained(LoadSeen(index), feeds, clock, maxArticles, hash);
            && LoadSeen(Some(newIndex)) == UidSet(kept)
            && |items| == |kept| <= maxArticles
            && forall i :: 0 <= i < |kept| ==> items[i] == ItemOf(kept[i], stampAt(i))
  {
    var seen0 := LoadSeen(index);
    var seen, cands := CollectNew(seen0, feeds, hash);
    var ranked := SortCandidates(cands, clock);
    var kept := Undecorate(Take(ranked, maxArticles));
    assert kept == Retained(seen0, feeds, clock, maxArticles, hash);
    var keptIds := set a | a in kept :: a.uid;
    RetainedAreDigests(seen0, feeds, clock, maxArticles, hash);
    UidSetComprehension(kept);
    ghost var order;
    newIndex, order := SaveSeen(keptIds);
    items := BuildItems(kept, stampAt);
  }

  /** `new_articles.sort(key=sort_key, reverse=True)`: the keys are computed
      once per candidate, in list order, then the list is sorted in place. */
  method SortCandidates(cands: seq<Article>, clock: nat -> Time) returns (ranked: seq<Keyed>)
    ensures ranked == Ranked(cands, clock)
  {
    var ks := Decorate(cands, clock);
    var arr := new Keyed[|ks|](i requires 0 <= i < |ks| => ks[i]);
    assert arr[..] == ks;
    SortNewestFirst(arr);
    ranked := arr[..];
  }

  /** Every candidate identifier is a digest. */
  lemma {:induction false} FreshUidsAreDigests(seen0: set<string>, es: seq<Entry>, n: nat, hash: string -> string)
    requires n <= |es| && HexDigests(hash)
    ensures forall k :: 0 <= k < |Fresh(seen0, es, n, hash)| ==> IsHexDigest(Fresh(seen0, es, n, hash)[k].uid)
  {
    if n > 0 {
      FreshUidsAreDigests(seen0, es, n - 1, hash);
    }
  }

  /** Sorting and trimming keep only candidates. */
  lemma RetainedAreCandidates(seen0: set<string>, feeds: seq<seq<Entry>>, clock: nat -> Time, max: nat,
                              hash: string -> string)
    ensures forall a :: a in Retained(seen0, feeds, clock, max, hash) ==> a in Candidates(seen0, feeds, hash)
  {
    var c := Candidates(seen0, feeds, hash);
    var d := Decorate(c, clock);
    var w := Take(SortDesc(d), max);
    SortDescPermutes(d);
    forall a | a in Undecorate(w) ensures a in c {
      var i :| 0 <= i < |w| && Undecorate(w)[i] == a;
      assert w[i] in multiset(SortDesc(d));
      var k :| 0 <= k < |d| && d[k] == w[i];
    }
  }

  /** The kept identifiers survive the seen-set file: they are digests. */
  lemma RetainedAreDigests(seen0: set<string>, feeds: seq<seq<Entry>>, clock: nat -> Time, max: nat,
                           hash: string -> string)
    requires HexDigests(hash)
    ensures forall a :: a in Retained(seen0, feeds, clock, max, hash) ==> IsCleanId(a.uid)
  {
    var es := Flatten(feeds);
    FreshUidsAreDigests(seen0, es, |es|, hash);
    RetainedAreCandidates(seen0, feeds, clock, max, hash);
    forall a | a in Retained(seen0, feeds, clock, max, hash) ensures IsCleanId(a.uid) {
      var c := Candidates(seen0, feeds, hash);
      var k :| 0 <= k < |c| && c[k] == a;
      HexDigestIsClean(a.uid);
    }
  }

  /** The kept window: at most `max` articles, the newest of the candidates,
      newest first, with distinct identifiers none of which was loaded; no
      dropped candidate is strictly newer than a kept one. */
  lemma RetainedIsNewestWindow(seen0: set<string>, feeds: seq<seq<Entry>>, clock: nat -> Time, max: nat,
                               hash: string -> string)
    ensures var c := Candidates(seen0, feeds, hash);
            var rk := Ranked(c, clock);
            var r := Retained(seen0, feeds, clock, max, hash);
            && |r| == (if |c| <= max then |c| else max)
            && r == Undecorate(rk[..|r|])
            && NewestFirst(rk[..|r|])
            && (forall i, j :: 0 <= i < |r| <= j < |rk| ==> !Before(rk[i].key, rk[j].key))
            && Distinct(Uids(r))
            && (forall u :: u in UidSet(r) ==> u !in seen0)
  {
    RetainedIsSortedPrefix(seen0, feeds, clock, max, hash);
    RetainedUidsAreNew(seen0, feeds, clock, max, hash);
  }

  lemma RetainedIsSortedPrefix(seen0: set<string>, feeds: seq<seq<Entry>>, clock: nat -> Time, max: nat,
                               hash: string -> string)
    ensures var c := Candidates(seen0, feeds, hash);
            var rk := Ranked(c, clock);
            var r := Retained(seen0, feeds, clock, max, hash);
            && |r| == (if |c| <= max then |c| else max)
            && r == Undecorate(rk[..|r|])
            && NewestFirst(rk[..|r|])
            && (forall i, j :: 0 <= i < |r| <= j < |rk| ==> !Before(rk[i].key, rk[j].key))
  {
    var c := Candidates(seen0, feeds, hash);
    SortDescNewestFirst(Decorate(c, clock));
  }

  lemma RetainedUidsAreNew(seen0: set<string>, feeds: seq<seq<Entry>>, clock: nat -> Time, max: nat,
                           hash: string -> string)
    ensures var r := Retained(seen0, feeds, clock, max, hash);
            && Distinct(Uids(r))
            && (forall u :: u in UidSet(r) ==> u !in seen0)
  {
    var c := Candidates(seen0, feeds, hash);
    var es := Flatten(feeds);
    var d := Decorate(c, clock);
    FreshIsNewAndDistinct(seen0, es, |es|, hash);
    DecoratedUidsDistinct(c, clock);
    SortDescKeepsDistinctUids(d);
    PrefixUidsDistinct(Ranked(c, clock), max);
    RetainedAreCandidates(seen0, feeds, clock, max, hash);
    CandidateUidsAreNew(Retained(seen0, feeds, clock, max, hash), c, seen0);
  }

  lemma DecoratedUidsDistinct(c: seq<Article>, clock: nat -> Time)
    requires Distinct(Uids(c))
    ensures DistinctUids(Decorate(c, clock))
  {
    var d := Decorate(c, clock);
    forall i, j | 0 <= i < j < |d| ensures d[i].article.uid != d[j].article.uid {
      assert Uids(c)[i] != Uids(c)[j];
    }
  }

  lemma PrefixUidsDistinct(rk: seq<Keyed>, max: nat)
    requires DistinctUids(rk)
    ensures Distinct(Uids(Undecorate(Take(rk, max))))
  {
    var r := Undecorate(Take(rk, max));
    forall i, j | 0 <= i < j < |r| ensures Uids(r)[i] != Uids(r)[j] {
      assert Uids(r)[i] == rk[i].article.uid && Uids(r)[j] == rk[j].article.uid;
    }
  }

  lemma CandidateUidsAreNew(r: seq<Article>, c: seq<Article>, seen0: set<string>)
    requires forall a :: a in r ==> a in c
    requires forall u :: u in Uids(c) ==> u !in seen0
    ensures forall u :: u in UidSet(r) ==> u !in seen0
  {
    forall u | u in UidSet(r) ensures u !in seen0 {
      var k :| 0 <= k < |r| && Uids(r)[k] == u;
      assert r[k] in c;
      var m :| 0 <= m < |c| && c[m] == r[k];
      assert Uids(c)[m] == u;
    }
  }

  /** The saved set is exactly the kept identifiers, one per kept article,
      so it never holds more than `max`; every identifier loaded at the start
      of the run is dropped from it. */
  lemma SavedSetIsWindow(seen0: set<string>, feeds: seq<seq<Entry>>, clock: nat -> Time, max: nat,
                         hash: string -> string)
    ensures var r := Retained(seen0, feeds, clock, max, hash);
            && |UidSet(r)| == |r| <= max
            && (forall u :: u in seen0 ==> u !in UidSet(r))
  {
    var r := Retained(seen0, feeds, clock, max, hash);
    RetainedIsNewestWindow(seen0, feeds, clock, max, hash);
    DistinctCardinality(Uids(r));
    assert UidSet(r) == set x | x in Uids(r);
  }

  /** When every fetched entry was already seen, nothing is kept: no item is
      built and the saved set is empty. */
  lemma AllSeenGivesEmptyOutput(seen0: set<string>, feeds: seq<seq<Entry>>, clock: nat -> Time, max: nat,
                                hash: string -> string)
    requires forall e :: e in Flatten(feeds) ==> Uid(e, hash) in seen0
    ensures Retained(seen0, feeds, clock, max, hash) == []
    ensures UidSet(Retained(seen0, feeds, clock, max, hash)) == {}
  {
    var es := Flatten(feeds);
    assert forall i :: 0 <= i < |es| ==> es[i] in es;
    NothingNewNoCandidates(seen0, es, |es|, hash);
  }

  /** An entry whose identifier is not in the saved set is collected again by
      the next run that fetches it, even when it was seen before; in
      particular every identifier loaded by this run. */
  lemma DroppedEntriesReappear(seen0: set<string>, feeds: seq<seq<Entry>>, clock: nat -> Time, max: nat,
                               hash: string -> string, nextFeeds: seq<seq<Entry>>, e: Entry)
    requires e in Flatten(nextFeeds)
    requires Uid(e, hash) !in UidSet(Retained(seen0, feeds, clock, max, hash))
    ensures Uid(e, hash) in UidSet(Candidates(UidSet(Retained(seen0, feeds, clock, max, hash)), nextFeeds, hash))
  {
    var saved := UidSet(Retained(seen0, feeds, clock, max, hash));
    var es := Flatten(nextFeeds);
    FreshIsNewAndDistinct(saved, es, |es|, hash);
    var i :| 0 <= i < |es| && es[i] == e;
    assert EntryUids(es, hash)[..|es|][i] == Uid(e, hash);
  }

  /** A feed that yields no entries (feedparser's answer to most fetch
      failures) changes neither the candidates nor the kept articles. */
  lemma EmptyFeedContributesNothing(seen0: set<string>, before: seq<seq<Entry>>, after: seq<seq<Entry>>,
                                    clock: nat -> Time, max: nat, hash: string -> string)
    ensures Candidates(seen0, before + [[]] + after, hash) == Candidates(seen0, before + after, hash)
    ensures Retained(seen0, before + [[]] + after, clock, max, hash) == Retained(seen0, before + after, clock, max, hash)
  {
    FlattenAppend(before, [[]]);
    FlattenAppend(before + [[]], after);
    FlattenAppend(before, after);
    var none: seq<seq<Entry>> := [[]];
    assert Flatten(none) == [] by {
      assert none[..0] == [];
    }
    assert Flatten(before + [[]]) == Flatten(before);
  }

  /** Two runs over the same single entry, the first of which had seen it:
      the first run shows nothing and saves nothing, so the second run shows
      the entry again. */
  lemma SeenEntryReturnsOnTheNextRun(seen0: set<string>, e: Entry, clock: nat -> Time, max: nat,
                                     hash: string -> string)
    requires Uid(e, hash) in seen0 && max >= 1
    ensures Retained(seen0, [[e]], clock, max, hash) == []
    ensures UidSet(Retained(seen0, [[e]], clock, max, hash)) == {}
    ensures Retained({}, [[e]], clock, max, hash) == [Article(e, Uid(e, hash))]
  {
    assert Flatten([[e]]) == [e] by {
      assert [[e]][..0] == [];
    }
    AllSeenGivesEmptyOutput(seen0, [[e]], clock, max, hash);
    var c := Candidates({}, [[e]], hash);
    assert c == [Article(e, Uid(e, hash))] by {
      assert Fresh({}, [e], 0, hash) == [];
      assert Uids([]) == [];
    }
    var d := Decorate(c, clock);
    assert d == [Keyed(c[0], SortKey(e, clock(0)))];
    assert SortDesc(d) == d by {
      assert d[..0] == [];
    }
  }

  /** Three new entries A, B, C, published in that order, with room for two:
      the run shows C then B, and only their identifiers are saved, although
      A was new too. */
  lemma SlidingWindowExample(seen0: set<string>, a: Entry, b: Entry, c: Entry, clock: nat -> Time,
                             hash: string -> string)
    requires a.publishedParsed.Some? && b.publishedParsed.Some? && c.publishedParsed.Some?
    requires Before(PublishedTime(a.publishedParsed.value), PublishedTime(b.publishedParsed.value))
    requires Before(PublishedTime(b.publishedParsed.value), PublishedTime(c.publishedParsed.value))
    requires Uid(a, hash) != Uid(b, hash) && Uid(b, hash) != Uid(c, hash) && Uid(a, hash) != Uid(c, hash)
    requires Uid(a, hash) !in seen0 && Uid(b, hash) !in seen0 && Uid(c, hash) !in seen0
    ensures Retained(seen0, [[a, b, c]], clock, 2, hash) == [Article(c, Uid(c, hash)), Article(b, Uid(b, hash))]
    ensures UidSet(Retained(seen0, [[a, b, c]], clock, 2, hash)) == {Uid(c, hash), Uid(b, hash)}
  {
    var artA, artB, artC := Article(a, Uid(a, hash)), Article(b, Uid(b, hash)), Article(c, Uid(c, hash));
    ThreeNewCandidates(seen0, a, b, c, hash);
    var ka := Keyed(artA, PublishedTime(a.publishedParsed.value));
    var kb := Keyed(artB, PublishedTime(b.publishedParsed.value));
    var kc := Keyed(artC, PublishedTime(c.publishedParsed.value));
    var d := Decorate([artA, artB, artC], clock);
    assert d == [ka, kb, kc];
    SortThreeAscending(ka, kb, kc);
    assert Take([kc, kb, ka], 2) == [kc, kb];
    UidsAppend([artC], artB);
    assert [artC] + [artB] == [artC, artB];
  }

  lemma ThreeNewCandidates(seen0: set<string>, a: Entry, b: Entry, c: Entry, hash: string -> string)
    requires Uid(a, hash) != Uid(b, hash) && Uid(b, hash) != Uid(c, hash) && Uid(a, hash) != Uid(c, hash)
    requires Uid(a, hash) !in seen0 && Uid(b, hash) !in seen0 && Uid(c, hash) !in seen0
    ensures Candidates(seen0, [[a, b, c]], hash)
            == [Article(a, Uid(a, hash)), Article(b, Uid(b, hash)), Article(c, Uid(c, hash))]
  {
    var es := [a, b, c];
    assert Flatten([es]) == es by {
      assert [es][..0] == [];
    }
    ThreeNewFresh(seen0, es, hash);
  }

  lemma ThreeNewFresh(seen0: set<string>, es: seq<Entry>, hash: string -> string)
    requires |es| == 3
    requires Uid(es[0], hash) != Uid(es[1], hash) && Uid(es[1], hash) != Uid(es[2], hash)
    requires Uid(es[0], hash) != Uid(es[2], hash)
    requires Uid(es[0], hash) !in seen0 && Uid(es[1], hash) !in seen0 && Uid(es[2], hash) !in seen0
    ensures Fresh(seen0, es, 3, hash)
            == [Article(es[0], Uid(es[0], hash)), Article(es[1], Uid(es[1], hash)), Article(es[2], Uid(es[2], hash))]
  {
    var artA, artB := Article(es[0], Uid(es[0], hash)), Article(es[1], Uid(es[1], hash));
    var prev := Fresh(seen0, es, 2, hash);
    TwoNewCandidates(seen0, es, hash);
    assert Uids(prev) == [artA.uid, artB.uid];
    assert Fresh(seen0, es, 3, hash) == prev + [Article(es[2], Uid(es[2], hash))];
  }

  lemma TwoNewCandidates(seen0: set<string>, es: seq<Entry>, hash: string -> string)
    requires |es| >= 2 && Uid(es[0], hash) != Uid(es[1], hash)
    requires Uid(es[0], hash) !in seen0 && Uid(es[1], hash) !in seen0
    ensures Fresh(seen0, es, 2, hash) == [Article(es[0], Uid(es[0], hash)), Article(es[1], Uid(es[1], hash))]
  {
    var artA := Article(es[0], Uid(es[0], hash));
    assert Fresh(seen0, es, 1, hash) == [artA] by {
      assert Fresh(seen0, es, 0, hash) == [] && Uids([]) == [];
    }
    UidsAppend([], artA);
  }

  /** A candidate whose key is strictly newer than another's is shown before
      it. */
  lemma NewerShownFirst(cands: seq<Article>, clock: nat -> Time, p: nat, q: nat)
    requires p < |cands| && q < |cands|
    requires Before(Decorate(cands, clock)[p].key, Decorate(cands, clock)[q].key)
    ensures ShownBefore(Ranked(cands, clock), Decorate(cands, clock)[q], Decorate(cands, clock)[p])
  {
    var d := Decorate(cands, clock);
    var rk := Ranked(cands, clock);
    RankedHas(cands, clock, p);
    RankedHas(cands, clock, q);
    SortDescNewestFirst(d);
    BeforeIsStrictTotalOrder(d[p].key, d[q].key, d[q].key);
  }

  /** Every keyed candidate appears in the sorted list. */
  lemma RankedHas(cands: seq<Article>, clock: nat -> Time, p: nat)
    requires p < |cands|
    ensures Decorate(cands, clock)[p] in Ranked(cands, clock)
  {
    var d := Decorate(cands, clock);
    SortDescPermutes(d);
    assert d[p] in multiset(SortDesc(d));
  }

  /** Entries without a published time are keyed by the clock reading taken
      for each of them: when the clock advances between two such candidates,
      the one collected later is shown first. */
  lemma AdvancingClockReversesUndated(cands: seq<Article>, clock: nat -> Time, p: nat, q: nat)
    requires p < q < |cands|
    requires cands[p].entry.publishedParsed.None? && cands[q].entry.publishedParsed.None?
    requires Before(clock(p), clock(q))
    ensures ShownBefore(Ranked(cands, clock), Decorate(cands, clock)[q], Decorate(cands, clock)[p])
  {
    NewerShownFirst(cands, clock, p, q);
  }

  /** Each default applies on its own whenever its key is absent, whatever
      the other keys hold: the title "No title", empty link and description,
      and the current time. */
  lemma AbsentFieldsFallBack(a: Article, stamp: string)
    ensures a.entry.title.None? ==> ItemOf(a, stamp).title == "No title"
    ensures a.entry.link.None? ==> ItemOf(a, stamp).link == ""
    ensures a.entry.summary.None? ==> ItemOf(a, stamp).description == ""
    ensures a.entry.published.None? ==> ItemOf(a, stamp).pubDate == stamp
  {
  }

  /** A key that is present is copied as it is, whatever the other keys hold
      and even when its value is empty: the defaults do not apply to empty
      values. */
  lemma PresentFieldsAreKept(a: Article, stamp: string)
    ensures a.entry.title.Some? ==> ItemOf(a, stamp).title == a.entry.title.value
    ensures a.entry.link.Some? ==> ItemOf(a, stamp).link == a.entry.link.value
    ensures a.entry.summary.Some? ==> ItemOf(a, stamp).description == a.entry.summary.value
    ensures a.entry.published.Some? ==> ItemOf(a, stamp).pubDate == a.entry.published.value
  {
  }
}

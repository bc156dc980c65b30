/** The collection loop of the aggregation run (update_feeds.py:44-55):
    walk every feed in order, every entry in order, and keep an entry when
    its identifier has not been seen yet, adding the identifier to the
    seen set at once so that later duplicates in the same run are dropped. */
module Collect {
  import opened Feed
  import opened Identity

  /** All entries of all feeds, feed by feed. */
  function Flatten(feeds: seq<seq<Entry>>): seq<Entry> {
    if feeds == [] then [] else Flatten(feeds[..|feeds| - 1]) + feeds[|feeds| - 1]
  }

  lemma {:induction false} FlattenPrefix(feeds: seq<seq<Entry>>, m: nat)
    requires m <= |feeds|
    ensures |Flatten(feeds[..m])| <= |Flatten(feeds)|
    ensures Flatten(feeds)[..|Flatten(feeds[..m])|] == Flatten(feeds[..m])
    decreases |feeds|
  {
    if m < |feeds| {
      var init := feeds[..|feeds| - 1];
      assert init[..m] == feeds[..m];
      FlattenPrefix(init, m);
    } else {
      assert feeds[..m] == feeds;
    }
  }

  /** Flattening distributes over joining lists of feeds. */
  lemma {:induction false} FlattenAppend(a: seq<seq<Entry>>, b: seq<seq<Entry>>)
    ensures Flatten(a + b) == Flatten(a) + Flatten(b)
    decreases |b|
  {
    if b == [] {
      assert a + b == a;
    } else {
      var init := b[..|b| - 1];
      assert (a + b)[..|a + b| - 1] == a + init;
      FlattenAppend(a, init);
    }
  }

  /** Feed `i` sits in the flattened list right after the feeds before it. */
  lemma FlattenSlice(feeds: seq<seq<Entry>>, i: nat)
    requires i < |feeds|
    ensures var a := |Flatten(feeds[..i])|;
            && |Flatten(feeds[..i + 1])| == a + |feeds[i]| <= |Flatten(feeds)|
            && Flatten(feeds)[a..a + |feeds[i]|] == feeds[i]
  {
    assert feeds[..i + 1][..i] == feeds[..i];
    FlattenPrefix(feeds, i + 1);
  }

  /** The identifiers of a list of entries, in list order. */
  function EntryUids(es: seq<Entry>, hash: string -> string): (r: seq<string>)
    ensures |r| == |es|
    ensures forall k :: 0 <= k < |es| ==> r[k] == Uid(es[k], hash)
  {
    if es == [] then [] else EntryUids(es[..|es| - 1], hash) + [Uid(es[|es| - 1], hash)]
  }

  /** The candidate list the loop has built after visiting the first `n`
      entries of `es`, when `seen0` was loaded. */
  function Fresh(seen0: set<string>, es: seq<Entry>, n: nat, hash: string -> string): seq<Article>
    requires n <= |es|
  {
    if n == 0 then []
    else
      var prev := Fresh(seen0, es, n - 1, hash);
      var u := Uid(es[n - 1], hash);
      if u in seen0 || u in Uids(prev) then prev else prev + [Article(es[n - 1], u)]
  }

  /** The outer loop over feeds (update_feeds.py:49-55). Returns the grown
      seen set and the candidate list `new_articles`. */
  method CollectNew(seen0: set<string>, feeds: seq<seq<Entry>>, hash: string -> string)
    returns (seen: set<string>, cands: seq<Article>)
    ensures cands == Fresh(seen0, Flatten(feeds), |Flatten(feeds)|, hash)
    ensures seen == seen0 + UidSet(cands)
  {
    ghost var all := Flatten(feeds);
    ghost var pos := 0;
    seen, cands := seen0, [];
    var i := 0;
    while i < |feeds|
      invariant 0 <= i <= |feeds|
      invariant pos == |Flatten(feeds[..i])| <= |all|
      invariant cands == Fresh(seen0, all, pos, hash)
      invariant forall u :: u in seen <==> u in seen0 || u in Uids(cands)
    {
      FlattenSlice(feeds, i);
      seen, cands := CollectFeed(seen0, all, pos, feeds[i], hash, seen, cands);
      pos := pos + |feeds[i]|;
      i := i + 1;
    }
    assert feeds[..i] == feeds;
  }

  /** The inner loop over one feed's entries, which sit at `all[start..]`:
      an entry whose identifier is not in `seen` is appended, and its
      identifier added to `seen`. */
  method CollectFeed(ghost seen0: set<string>, ghost all: seq<Entry>, ghost start: nat, entries: seq<Entry>,
                     hash: string -> string, seenIn: set<string>, candsIn: seq<Article>)
    returns (seen: set<string>, cands: seq<Article>)
    requires start + |entries| <= |all| && all[start..start + |entries|] == entries
    requires candsIn == Fresh(seen0, all, start, hash)
    requires forall u :: u in seenIn <==> u in seen0 || u in Uids(candsIn)
    ensures cands == Fresh(seen0, all, start + |entries|, hash)
    ensures forall u :: u in seen <==> u in seen0 || u in Uids(cands)
  {
    seen, cands := seenIn, candsIn;
    var j := 0;
    while j < |entries|
      invariant 0 <= j <= |entries|
      invariant cands == Fresh(seen0, all, start + j, hash)
      invariant forall u :: u in seen <==> u in seen0 || u in Uids(cands)
    {
      var entry := entries[j];
      var uid := Uid(entry, hash);
      assert all[start + j] == entry;
      ghost var seenBefore, candsBefore := seen, cands;
      if uid !in seen {
        seen := seen + {uid};
        cands := cands + [Article(entry, uid)];
      }
      FreshStep(seen0, all, start + j, hash, seenBefore, candsBefore, seen, cands);
      j := j + 1;
    }
  }

  /** One visit of the loop: the new candidate list and seen set are those
      of the reference list one entry further. */
  lemma FreshStep(seen0: set<string>, all: seq<Entry>, n: nat, hash: string -> string,
                  seen: set<string>, cands: seq<Article>, seen': set<string>, cands': seq<Article>)
    requires n < |all| && cands == Fresh(seen0, all, n, hash)
    requires forall u :: u in seen <==> u in seen0 || u in Uids(cands)
    requires Uid(all[n], hash) in seen ==> seen' == seen && cands' == cands
    requires Uid(all[n], hash) !in seen ==>
               seen' == seen + {Uid(all[n], hash)} && cands' == cands + [Article(all[n], Uid(all[n], hash))]
    ensures cands' == Fresh(seen0, all, n + 1, hash)
    ensures forall u :: u in seen' <==> u in seen0 || u in Uids(cands')
  {
    if Uid(all[n], hash) !in seen {
      UidsAppend(cands, Article(all[n], Uid(all[n], hash)));
    }
  }

  /** No two candidates share an identifier, and the candidates carry
      exactly the identifiers of the visited entries that were not loaded
      (so none of them was loaded). */
  lemma {:induction false} FreshIsNewAndDistinct(seen0: set<string>, es: seq<Entry>, n: nat, hash: string -> string)
    requires n <= |es|
    ensures Distinct(Uids(Fresh(seen0, es, n, hash)))
    ensures forall u :: u in Uids(Fresh(seen0, es, n, hash)) <==> u in EntryUids(es, hash)[..n] && u !in seen0
  {
    if n > 0 {
      FreshIsNewAndDistinct(seen0, es, n - 1, hash);
      assert EntryUids(es, hash)[..n] == EntryUids(es, hash)[..n - 1] + [Uid(es[n - 1], hash)];
      VisitKeepsNewAndDistinct(seen0, EntryUids(es, hash)[..n - 1], Fresh(seen0, es, n - 1, hash),
                               Article(es[n - 1], Uid(es[n - 1], hash)));
    }
  }

  /** One step of the loop keeps the candidates' identifiers distinct and
      equal to the new identifiers met so far. */
  lemma VisitKeepsNewAndDistinct(seen0: set<string>, met: seq<string>, prev: seq<Article>, a: Article)
    requires Distinct(Uids(prev))
    requires forall v :: v in Uids(prev) <==> v in met && v !in seen0
    ensures var cands := if a.uid in seen0 || a.uid in Uids(prev) then prev else prev + [a];
            && Distinct(Uids(cands))
            && forall v :: v in Uids(cands) <==> v in met + [a.uid] && v !in seen0
  {
    if !(a.uid in seen0 || a.uid in Uids(prev)) {
      UidsAppend(prev, a);
      DistinctAppend(Uids(prev), a.uid);
    }
  }

  /** When every visited entry was loaded, there is no candidate. */
  lemma {:induction false} NothingNewNoCandidates(seen0: set<string>, es: seq<Entry>, n: nat, hash: string -> string)
    requires n <= |es|
    requires forall i :: 0 <= i < n ==> Uid(es[i], hash) in seen0
    ensures Fresh(seen0, es, n, hash) == []
  {
    if n > 0 {
      NothingNewNoCandidates(seen0, es, n - 1, hash);
    }
  }

  /** Index of the first occurrence of `u` in `s`. */
  function FirstIndex(s: seq<string>, u: string): (i: nat)
    requires u in s
    ensures i < |s| && s[i] == u
    ensures forall j :: 0 <= j < i ==> s[j] != u
  {
    if s[0] == u then 0 else 1 + FirstIndex(s[1..], u)
  }

  /** Each candidate holds the entry at the first position of its
      identifier in `uids`, and candidates follow those positions in order. */
  predicate KeepsFirstOccurrences(es: seq<Entry>, uids: seq<string>, cands: seq<Article>)
    requires |uids| == |es|
  {
    && (forall k :: 0 <= k < |cands| ==> cands[k].uid in uids)
    && (forall k :: 0 <= k < |cands| ==> cands[k].entry == es[FirstIndex(uids, cands[k].uid)])
    && (forall k, m :: 0 <= k < m < |cands| ==>
          FirstIndex(uids, cands[k].uid) < FirstIndex(uids, cands[m].uid))
  }

  /** Only the first occurrence is kept: the candidates are, in order, the
      first entries (feed order, then entry order) carrying each identifier
      not loaded. */
  lemma {:induction false} FreshKeepsFirstOccurrence(seen0: set<string>, es: seq<Entry>, n: nat, hash: string -> string)
    requires n <= |es|
    ensures KeepsFirstOccurrences(es, EntryUids(es, hash), Fresh(seen0, es, n, hash))
    ensures forall k :: 0 <= k < |Fresh(seen0, es, n, hash)| ==>
              FirstIndex(EntryUids(es, hash), Fresh(seen0, es, n, hash)[k].uid) < n
  {
    if n > 0 {
      FreshKeepsFirstOccurrence(seen0, es, n - 1, hash);
      FreshIsNewAndDistinct(seen0, es, n - 1, hash);
      VisitKeepsFirstOccurrences(seen0, es, EntryUids(es, hash), n, Fresh(seen0, es, n - 1, hash));
    }
  }

  /** One step of the loop, visiting position `n - 1`, keeps only first
      occurrences. */
  lemma VisitKeepsFirstOccurrences(seen0: set<string>, es: seq<Entry>, uids: seq<string>, n: nat, prev: seq<Article>)
    requires |uids| == |es| && 0 < n <= |es|
    requires KeepsFirstOccurrences(es, uids, prev)
    requires forall k :: 0 <= k < |prev| ==> FirstIndex(uids, prev[k].uid) < n - 1
    requires forall v :: v in Uids(prev) <==> v in uids[..n - 1] && v !in seen0
    ensures var a := Article(es[n - 1], uids[n - 1]);
            var cands := if a.uid in seen0 || a.uid in Uids(prev) then prev else prev + [a];
            && KeepsFirstOccurrences(es, uids, cands)
            && forall k :: 0 <= k < |cands| ==> FirstIndex(uids, cands[k].uid) < n
  {
    var u := uids[n - 1];
    if !(u in seen0 || u in Uids(prev)) {
      var cands := prev + [Article(es[n - 1], u)];
      forall j | 0 <= j < n - 1 ensures uids[j] != u {
        assert uids[..n - 1][j] == uids[j];
      }
      assert FirstIndex(uids, u) == n - 1;
      forall k | 0 <= k < |cands|
        ensures cands[k].uid in uids && cands[k].entry == es[FirstIndex(uids, cands[k].uid)]
        ensures FirstIndex(uids, cands[k].uid) < n
      {
        if k < |prev| {
          assert cands[k] == prev[k];
        }
      }
      forall k, m | 0 <= k < m < |cands|
        ensures FirstIndex(uids, cands[k].uid) < FirstIndex(uids, cands[m].uid)
      {
        assert cands[k] == prev[k];
        if m < |prev| {
          assert cands[m] == prev[m];
        }
      }
      assert KeepsFirstOccurrences(es, uids, cands);
    }
  }

  /** `cands[k]` is the one candidate with identifier `u`. */
  predicate OnlyAt(cands: seq<Article>, u: string, k: int) {
    && 0 <= k < |cands| && cands[k].uid == u
    && forall m :: 0 <= m < |cands| && m != k ==> cands[m].uid != u
  }

  /** Every fetched entry whose identifier was not loaded is represented by
      exactly one candidate. */
  lemma FreshRepresentsEveryNewEntry(seen0: set<string>, es: seq<Entry>, hash: string -> string, e: Entry)
    requires e in es && Uid(e, hash) !in seen0
    ensures exists k :: OnlyAt(Fresh(seen0, es, |es|, hash), Uid(e, hash), k)
  {
    var cands := Fresh(seen0, es, |es|, hash);
    FreshIsNewAndDistinct(seen0, es, |es|, hash);
    var i :| 0 <= i < |es| && es[i] == e;
    var u := Uid(e, hash);
    assert EntryUids(es, hash)[..|es|][i] == u;
    assert u in Uids(cands);
    var k :| 0 <= k < |cands| && Uids(cands)[k] == u;
    forall m | 0 <= m < |cands| && m != k ensures cands[m].uid != u {
      if m < k {
        assert Uids(cands)[m] != Uids(cands)[k];
      } else {
        assert Uids(cands)[k] != Uids(cands)[m];
      }
    }
    assert OnlyAt(cands, u, k);
  }
}

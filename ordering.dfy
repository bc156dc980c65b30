/** Newest-first ordering of the candidates (update_feeds.py:58-63): each
    candidate gets a key, its published time or else the clock, and the list
    is sorted on that key, descending and stable. */
module Ordering {
  import opened Feed

  /** `a` is strictly earlier than `b`, comparing field by field as
      `datetime` does. */
  predicate Before(a: Time, b: Time)
    ensures Before(a, b) ==> a != b
  {
    if a.year != b.year then a.year < b.year
    else if a.month != b.month then a.month < b.month
    else if a.day != b.day then a.day < b.day
    else if a.hour != b.hour then a.hour < b.hour
    else if a.minute != b.minute then a.minute < b.minute
    else if a.second != b.second then a.second < b.second
    else a.microsecond < b.microsecond
  }

  /** `Before` is a strict total order. */
  lemma BeforeIsStrictTotalOrder(a: Time, b: Time, c: Time)
    ensures !Before(a, a)
    ensures Before(a, b) ==> !Before(b, a)
    ensures a != b ==> Before(a, b) || Before(b, a)
    ensures !Before(a, b) && !Before(b, c) ==> !Before(a, c)
  {
  }

  /** `datetime(*published_parsed[:6])`: second precision, no microseconds. */
  function PublishedTime(p: StructTime): (t: Time)
    ensures t.microsecond == 0
    ensures (t.year, t.month, t.day, t.hour, t.minute, t.second) == (p.year, p.month, p.day, p.hour, p.minute, p.second)
  {
    Time(p.year, p.month, p.day, p.hour, p.minute, p.second, 0)
  }

  /** `sort_key`: the published time when the entry has one, otherwise the
      clock reading `now` taken while computing this key. */
  function SortKey(e: Entry, now: Time): (k: Time)
    ensures e.publishedParsed.Some? ==> k.microsecond == 0
    ensures e.publishedParsed.None? ==> k == now
  {
    match e.publishedParsed
    case Some(p) => PublishedTime(p)
    case None => now
  }

  /** A dated entry is keyed by its published time. */
  lemma SortKeyOfDated(e: Entry, now: Time)
    requires e.publishedParsed.Some?
    ensures SortKey(e, now) == PublishedTime(e.publishedParsed.value)
  {
  }

  /** A candidate together with the key the sort computed for it. */
  datatype Keyed = Keyed(article: Article, key: Time)

  /** The keys `list.sort` computes, once per candidate and in list order;
      `clock(i)` is what `datetime.now()` returns while the key of candidate
      `i` is computed. */
  function Decorate(cands: seq<Article>, clock: nat -> Time): (ks: seq<Keyed>)
    ensures |ks| == |cands|
    ensures forall i :: 0 <= i < |cands| ==> ks[i] == Keyed(cands[i], SortKey(cands[i].entry, clock(i)))
  {
    seq(|cands|, i requires 0 <= i < |cands| => Keyed(cands[i], SortKey(cands[i].entry, clock(i))))
  }

  function Undecorate(ks: seq<Keyed>): (r: seq<Article>)
    ensures |r| == |ks|
    ensures forall i :: 0 <= i < |ks| ==> r[i] == ks[i].article
  {
    seq(|ks|, i requires 0 <= i < |ks| => ks[i].article)
  }

  /** Non-increasing in key: newest first. */
  predicate NewestFirst(ks: seq<Keyed>) {
    forall i, j :: 0 <= i < j < |ks| ==> !Before(ks[i].key, ks[j].key)
  }

  /** Both `x` and `y` occur in `ks`, and wherever they occur, `x` comes
      first. */
  predicate ShownBefore(ks: seq<Keyed>, x: Keyed, y: Keyed) {
    && x in ks && y in ks
    && forall i, j :: 0 <= i < |ks| && 0 <= j < |ks| && ks[i] == x && ks[j] == y ==> i < j
  }

  /** The elements of `ks` whose key is `k`, in order. */
  function WithKey(ks: seq<Keyed>, k: Time): seq<Keyed> {
    if ks == [] then []
    else WithKey(ks[..|ks| - 1], k) + (if ks[|ks| - 1].key == k then [ks[|ks| - 1]] else [])
  }

  /** Where `x` goes in `t`: after the last element that is not strictly
      older than `x`, so that it follows every element with an equal key. */
  function InsertPos(t: seq<Keyed>, x: Keyed): (j: nat)
    ensures j <= |t|
    ensures forall k :: j <= k < |t| ==> Before(t[k].key, x.key)
    ensures j == 0 || !Before(t[j - 1].key, x.key)
  {
    if t != [] && Before(t[|t| - 1].key, x.key) then InsertPos(t[..|t| - 1], x) else |t|
  }

  function InsertLast(t: seq<Keyed>, x: Keyed): (r: seq<Keyed>)
    ensures |r| == |t| + 1
  {
    var j := InsertPos(t, x);
    t[..j] + [x] + t[j..]
  }

  /** The stable descending sort, as insertion of each element in turn. */
  function SortDesc(s: seq<Keyed>): (r: seq<Keyed>)
    ensures |r| == |s|
  {
    if s == [] then [] else InsertLast(SortDesc(s[..|s| - 1]), s[|s| - 1])
  }

  /** The insertion position is fixed by the two conditions the sorting
      loop stops on. */
  lemma {:induction false} InsertPosAt(t: seq<Keyed>, x: Keyed, j: nat)
    requires j <= |t|
    requires forall k :: j <= k < |t| ==> Before(t[k].key, x.key)
    requires j == 0 || !Before(t[j - 1].key, x.key)
    ensures InsertPos(t, x) == j
    decreases |t|
  {
    if j < |t| {
      var p := t[..|t| - 1];
      assert forall k :: j <= k < |p| ==> p[k] == t[k];
      InsertPosAt(p, x, j);
    }
  }

  lemma {:induction false} WithKeyAppend(a: seq<Keyed>, b: seq<Keyed>, k: Time)
    ensures WithKey(a + b, k) == WithKey(a, k) + WithKey(b, k)
    decreases |b|
  {
    if b == [] {
      assert a + b == a;
    } else {
      var b' := b[..|b| - 1];
      assert (a + b)[..|a + b| - 1] == a + b';
      assert (a + b)[|a + b| - 1] == b[|b| - 1];
      WithKeyAppend(a, b', k);
    }
  }

  /** A list whose keys are all strictly older than `k` has no element with key `k`. */
  lemma {:induction false} WithKeyOfOlder(ks: seq<Keyed>, k: Time)
    requires forall i :: 0 <= i < |ks| ==> Before(ks[i].key, k)
    ensures WithKey(ks, k) == []
  {
    if ks != [] {
      WithKeyOfOlder(ks[..|ks| - 1], k);
      BeforeIsStrictTotalOrder(k, k, k);
    }
  }

  lemma InsertLastPermutes(t: seq<Keyed>, x: Keyed)
    ensures multiset(InsertLast(t, x)) == multiset(t) + multiset{x}
  {
    var j := InsertPos(t, x);
    assert t == t[..j] + t[j..];
  }

  lemma InsertLastStable(t: seq<Keyed>, x: Keyed, k: Time)
    ensures WithKey(InsertLast(t, x), k) == WithKey(t, k) + (if x.key == k then [x] else [])
  {
    var j := InsertPos(t, x);
    assert t == t[..j] + t[j..];
    WithKeyAppend(t[..j] + [x], t[j..], k);
    WithKeyAppend(t[..j], [x], k);
    WithKeyAppend(t[..j], t[j..], k);
    assert WithKey([x], k) == (if x.key == k then [x] else []) by {
      assert [x][..0] == [];
    }
    if x.key == k {
      WithKeyOfOlder(t[j..], k);
    }
  }

  lemma InsertLastNewestFirst(t: seq<Keyed>, x: Keyed)
    requires NewestFirst(t)
    ensures NewestFirst(InsertLast(t, x))
  {
    var j := InsertPos(t, x);
    var r := InsertLast(t, x);
    assert forall k :: 0 <= k < j ==> r[k] == t[k];
    assert forall k :: j < k < |r| ==> r[k] == t[k - 1];
    forall a, b | 0 <= a < b < |r| ensures !Before(r[a].key, r[b].key) {
      if a < j && b == j {
        BeforeIsStrictTotalOrder(t[a].key, t[j - 1].key, x.key);
      } else if a == j {
        BeforeIsStrictTotalOrder(t[b - 1].key, x.key, x.key);
      } else if b < j {
        assert r[a] == t[a] && r[b] == t[b];
      } else if a < j {
        assert r[a] == t[a] && r[b] == t[b - 1];
      } else {
        assert r[a] == t[a - 1] && r[b] == t[b - 1];
      }
    }
  }

  /** The sorted list is a permutation of its input. */
  lemma {:induction false} SortDescPermutes(s: seq<Keyed>)
    ensures multiset(SortDesc(s)) == multiset(s)
  {
    if s != [] {
      var p := s[..|s| - 1];
      SortDescPermutes(p);
      InsertLastPermutes(SortDesc(p), s[|s| - 1]);
      assert s == p + [s[|s| - 1]];
    }
  }

  /** The sorted list is newest first. */
  lemma {:induction false} SortDescNewestFirst(s: seq<Keyed>)
    ensures NewestFirst(SortDesc(s))
  {
    if s != [] {
      SortDescNewestFirst(s[..|s| - 1]);
      InsertLastNewestFirst(SortDesc(s[..|s| - 1]), s[|s| - 1]);
    }
  }

  /** The sort is stable: the elements sharing a key keep their relative
      order, as Python's sort guarantees with `reverse=True`. */
  lemma {:induction false} SortDescStable(s: seq<Keyed>, k: Time)
    ensures WithKey(SortDesc(s), k) == WithKey(s, k)
  {
    if s != [] {
      var p := s[..|s| - 1];
      SortDescStable(p, k);
      InsertLastStable(SortDesc(p), s[|s| - 1], k);
    }
  }

  /** Three elements given oldest first come out newest first. */
  lemma SortThreeAscending(ka: Keyed, kb: Keyed, kc: Keyed)
    requires Before(ka.key, kb.key) && Before(kb.key, kc.key)
    ensures SortDesc([ka, kb, kc]) == [kc, kb, ka]
  {
    BeforeTransitive(ka.key, kb.key, kc.key);
    var s := [ka, kb, kc];
    assert StrictlyAscending(s);
    SortDescOfAscending(s);
    assert Reversed(s) == [kc, kb, ka];
  }

  /** Every element strictly older than every later one. */
  predicate StrictlyAscending(s: seq<Keyed>) {
    forall i, j :: 0 <= i < j < |s| ==> Before(s[i].key, s[j].key)
  }

  /** `s` back to front. */
  function Reversed(s: seq<Keyed>): (r: seq<Keyed>)
    ensures |r| == |s|
    ensures forall k :: 0 <= k < |s| ==> r[k] == s[|s| - 1 - k]
  {
    if s == [] then [] else [s[|s| - 1]] + Reversed(s[..|s| - 1])
  }

  /** Elements given strictly oldest first come out in reverse order. */
  lemma {:induction false} SortDescOfAscending(s: seq<Keyed>)
    requires StrictlyAscending(s)
    ensures SortDesc(s) == Reversed(s)
  {
    if s != [] {
      var p, x := s[..|s| - 1], s[|s| - 1];
      assert StrictlyAscending(p);
      SortDescOfAscending(p);
      assert s == p + [x];
      SortDescSnoc(p, x);
      InsertNewest(Reversed(p), x);
    }
  }

  /** Sorting one more element inserts it into the sorted rest. */
  lemma SortDescSnoc(s: seq<Keyed>, x: Keyed)
    ensures SortDesc(s + [x]) == InsertLast(SortDesc(s), x)
  {
    assert (s + [x])[..|s|] == s;
  }

  /** An element strictly newer than every element goes to the front. */
  lemma InsertNewest(t: seq<Keyed>, x: Keyed)
    requires forall k :: 0 <= k < |t| ==> Before(t[k].key, x.key)
    ensures InsertLast(t, x) == [x] + t
  {
    InsertPosAt(t, x, 0);
    assert t[..0] + [x] + t[0..] == [x] + t;
  }

  /** `Before` is transitive. */
  lemma BeforeTransitive(a: Time, b: Time, c: Time)
    requires Before(a, b) && Before(b, c)
    ensures Before(a, c)
  {
  }

  /** No two elements carry articles with the same identifier. */
  predicate DistinctUids(ks: seq<Keyed>) {
    forall i, j :: 0 <= i < j < |ks| ==> ks[i].article.uid != ks[j].article.uid
  }

  lemma InsertLastKeepsDistinctUids(t: seq<Keyed>, x: Keyed)
    requires DistinctUids(t)
    requires forall k :: 0 <= k < |t| ==> t[k].article.uid != x.article.uid
    ensures DistinctUids(InsertLast(t, x))
  {
    var j := InsertPos(t, x);
    var r := InsertLast(t, x);
    assert forall k :: 0 <= k < j ==> r[k] == t[k];
    assert forall k :: j < k < |r| ==> r[k] == t[k - 1];
  }

  /** Sorting neither adds nor merges identifiers. */
  lemma {:induction false} SortDescKeepsDistinctUids(s: seq<Keyed>)
    requires DistinctUids(s)
    ensures DistinctUids(SortDesc(s))
  {
    if s != [] {
      var p := s[..|s| - 1];
      var x := s[|s| - 1];
      var t := SortDesc(p);
      SortDescKeepsDistinctUids(p);
      SortDescPermutes(p);
      forall k | 0 <= k < |t| ensures t[k].article.uid != x.article.uid {
        assert t[k] in multiset(p);
        var m :| 0 <= m < |p| && p[m] == t[k];
      }
      InsertLastKeepsDistinctUids(t, x);
    }
  }

  /** The layout the sorting loop leaves behind is the insertion. */
  lemma Placed(t: seq<Keyed>, x: Keyed, j: nat, r: seq<Keyed>)
    requires j == InsertPos(t, x) && |r| == |t| + 1
    requires forall k :: 0 <= k < j ==> r[k] == t[k]
    requires r[j] == x
    requires forall k :: j < k < |r| ==> r[k] == t[k - 1]
    ensures r == InsertLast(t, x)
  {
  }

  /** `new_articles.sort(key=sort_key, reverse=True)`, on the decorated
      list, as an insertion sort in place. */
  method SortNewestFirst(a: array<Keyed>)
    modifies a
    ensures a[..] == SortDesc(old(a[..]))
  {
    ghost var s := a[..];
    var i := 0;
    while i < a.Length
      invariant 0 <= i <= a.Length
      invariant a[..i] == SortDesc(s[..i])
      invariant forall k :: i <= k < a.Length ==> a[k] == s[k]
    {
      InsertInPlace(a, i);
      assert s[..i + 1][..i] == s[..i];
      i := i + 1;
    }
    assert s[..a.Length] == s;
  }

  /** One pass of the insertion sort: `a[i]` moves left past the elements
      strictly older than it; the elements after `i` are left alone. */
  method InsertInPlace(a: array<Keyed>, i: nat)
    requires i < a.Length
    modifies a
    ensures a[..i + 1] == InsertLast(old(a[..i]), old(a[i]))
    ensures forall k :: i < k < a.Length ==> a[k] == old(a[k])
  {
    ghost var t := a[..i];
    var x := a[i];
    var j := i;
    while j > 0 && Before(a[j - 1].key, x.key)
      invariant 0 <= j <= i
      invariant forall k :: 0 <= k < j ==> a[k] == t[k]
      invariant forall k :: j < k <= i ==> a[k] == t[k - 1]
      invariant forall k :: j <= k < i ==> Before(t[k].key, x.key)
      invariant forall k :: i < k < a.Length ==> a[k] == old(a[k])
    {
      a[j] := a[j - 1];
      j := j - 1;
    }
    a[j] := x;
    InsertPosAt(t, x, j);
    Placed(t, x, j, a[..i + 1]);
  }
}

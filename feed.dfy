/** Values the aggregation run works on: parsed feed entries, the
    (entry, uid) pairs it collects, and the item records it renders. */
module Feed {

  datatype Option<+T> = None | Some(value: T) {
    function GetOr(default: T): T {
      match this
      case Some(v) => v
      case None => default
    }
  }

  /** The first six fields of a parsed `struct_time` (the rest — weekday,
      day of year, DST flag — are never read). */
  datatype StructTime = StructTime(year: int, month: int, day: int, hour: int, minute: int, second: int)

  /** A point in time as `datetime` compares it: field by field, down to
      microseconds. */
  datatype Time = Time(year: int, month: int, day: int, hour: int, minute: int, second: int, microsecond: int)

  /** One parsed feed entry. `None` means the key is absent from the entry
      dictionary; `Some("")` means it is present but empty. For
      `publishedParsed`, `None` also stands for a date feedparser could not
      parse, which it stores as `None`: both are falsy to `sort_key`. */
  datatype Entry = Entry(
    id: Option<string>,
    link: Option<string>,
    title: Option<string>,
    summary: Option<string>,
    published: Option<string>,
    publishedParsed: Option<StructTime>)

  /** A candidate article: an entry together with its identifier. */
  datatype Article = Article(entry: Entry, uid: string)

  /** One `<item>` of the output document. */
  datatype Item = Item(title: string, link: string, guid: string, description: string, pubDate: string)

  predicate Distinct<T(==)>(s: seq<T>) {
    forall i, j :: 0 <= i < j < |s| ==> s[i] != s[j]
  }

  /** The identifiers of a list of articles, in list order. */
  function Uids(arts: seq<Article>): (r: seq<string>)
    ensures |r| == |arts|
    ensures forall k :: 0 <= k < |arts| ==> r[k] == arts[k].uid
  {
    if arts == [] then [] else Uids(arts[..|arts| - 1]) + [arts[|arts| - 1].uid]
  }

  /** The set of identifiers of a list of articles. */
  function UidSet(arts: seq<Article>): (r: set<string>)
    ensures forall u :: u in r <==> u in Uids(arts)
  {
    if arts == [] then {} else UidSet(arts[..|arts| - 1]) + {arts[|arts| - 1].uid}
  }

  /** `set(uid for _, uid in arts)`. */
  lemma UidSetComprehension(arts: seq<Article>)
    ensures UidSet(arts) == set a | a in arts :: a.uid
  {
    var c := set a | a in arts :: a.uid;
    forall u | u in UidSet(arts) ensures u in c {
      var k :| 0 <= k < |arts| && Uids(arts)[k] == u;
      assert arts[k] in arts;
    }
    forall u | u in c ensures u in UidSet(arts) {
      var a :| a in arts && a.uid == u;
      var k :| 0 <= k < |arts| && arts[k] == a;
      assert Uids(arts)[k] == u;
    }
  }

  lemma UidsAppend(arts: seq<Article>, a: Article)
    ensures Uids(arts + [a]) == Uids(arts) + [a.uid]
    ensures UidSet(arts + [a]) == UidSet(arts) + {a.uid}
  {
    assert (arts + [a])[..|arts|] == arts;
  }

  lemma DistinctAppend<T>(s: seq<T>, x: T)
    requires Distinct(s) && x !in s
    ensures Distinct(s + [x])
  {
  }

  /** A list without repetitions has as many distinct members as elements. */
  lemma {:induction false} DistinctCardinality<T>(s: seq<T>)
    requires Distinct(s)
    ensures |set x | x in s| == |s|
  {
    if s != [] {
      var p := s[..|s| - 1];
      DistinctCardinality(p);
      assert (set x | x in s) == (set x | x in p) + {s[|s| - 1]} by {
        assert s == p + [s[|s| - 1]];
      }
      assert s[|s| - 1] !in p;
    }
  }
}

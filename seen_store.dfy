/** The seen-set store (update_feeds.py, `load_seen` and `save_seen`): a
    text file holding one identifier per line. The file is modelled by its
    contents, `None` standing for a file that does not exist. */
module SeenStore {
  import opened Feed
  import Identity

  /** Python's `str.isspace`: the characters `str.strip()` removes. */
  predicate IsSpace(c: char)
    ensures IsSpace(c) ==> !Identity.IsHexChar(c)
    ensures c == ' ' || '\t' <= c <= '\r' ==> IsSpace(c)
  {
    || '\t' <= c <= '\r'
    || '\U{1c}' <= c <= '\U{1f}'
    || c == ' ' || c == '\U{85}' || c == '\U{a0}' || c == '\U{1680}'
    || '\U{2000}' <= c <= '\U{200a}'
    || c == '\U{2028}' || c == '\U{2029}' || c == '\U{202f}' || c == '\U{205f}' || c == '\U{3000}'
  }

  /** How many whitespace characters `s` starts with. */
  function LeadingSpaces(s: string): (n: nat)
    ensures n <= |s|
  {
    if s != [] && IsSpace(s[0]) then 1 + LeadingSpaces(s[1..]) else 0
  }

  /** Where the trailing whitespace of `s` begins. */
  function TrailingStart(s: string): (n: nat)
    ensures n <= |s|
  {
    if s != [] && IsSpace(s[|s| - 1]) then TrailingStart(s[..|s| - 1]) else |s|
  }

  lemma {:induction false} LeadingSpacesAreSpaces(s: string)
    ensures forall k :: 0 <= k < LeadingSpaces(s) ==> IsSpace(s[k])
    ensures LeadingSpaces(s) == |s| || !IsSpace(s[LeadingSpaces(s)])
  {
    if s != [] && IsSpace(s[0]) {
      LeadingSpacesAreSpaces(s[1..]);
      forall k | 1 <= k < LeadingSpaces(s) ensures IsSpace(s[k]) {
        assert s[k] == s[1..][k - 1];
      }
    }
  }

  lemma {:induction false} TrailingSpacesAreSpaces(s: string)
    ensures forall k :: TrailingStart(s) <= k < |s| ==> IsSpace(s[k])
    ensures TrailingStart(s) == 0 || !IsSpace(s[TrailingStart(s) - 1])
  {
    if s != [] && IsSpace(s[|s| - 1]) {
      TrailingSpacesAreSpaces(s[..|s| - 1]);
    }
  }

  /** `s.strip()`: the longest infix of `s` that neither starts nor ends with
      whitespace, everything around it being whitespace. */
  function Strip(s: string): (r: string)
    ensures r == [] || (!IsSpace(r[0]) && !IsSpace(r[|r| - 1]))
    ensures exists i :: StrippedAt(s, r, i)
  {
    StripWitness(s);
    s[LeadingSpaces(s)..][..TrailingStart(s[LeadingSpaces(s)..])]
  }

  lemma StripWitness(s: string)
    ensures var i := LeadingSpaces(s);
            var r := s[i..][..TrailingStart(s[i..])];
            && StrippedAt(s, r, i)
            && (r == [] || (!IsSpace(r[0]) && !IsSpace(r[|r| - 1])))
  {
    StripAround(s);
    StripEnds(s);
  }

  lemma StripAround(s: string)
    ensures StrippedAt(s, s[LeadingSpaces(s)..][..TrailingStart(s[LeadingSpaces(s)..])], LeadingSpaces(s))
  {
    LeadingSpacesAreSpaces(s);
    TrailingSpacesAreSpaces(s[LeadingSpaces(s)..]);
    StrippedAtIntro(s, LeadingSpaces(s), s[LeadingSpaces(s)..], TrailingStart(s[LeadingSpaces(s)..]));
  }

  lemma StrippedAtIntro(s: string, i: nat, l: string, j: nat)
    requires i <= |s| && l == s[i..] && j <= |l|
    requires forall k :: 0 <= k < i ==> IsSpace(s[k])
    requires forall k :: j <= k < |l| ==> IsSpace(l[k])
    ensures StrippedAt(s, l[..j], i)
  {
    forall k | i + j <= k < |s| ensures IsSpace(s[k]) {
      assert s[k] == l[k - i];
    }
    assert l[..j] == s[i..i + j];
  }

  lemma StripEnds(s: string)
    ensures var r := s[LeadingSpaces(s)..][..TrailingStart(s[LeadingSpaces(s)..])];
            r == [] || (!IsSpace(r[0]) && !IsSpace(r[|r| - 1]))
  {
    var i := LeadingSpaces(s);
    var l := s[i..];
    var j := TrailingStart(l);
    if j > 0 {
      LeadingSpacesAreSpaces(s);
      TrailingSpacesAreSpaces(l);
      assert l[..j][0] == s[i];
      assert l[..j][j - 1] == l[j - 1];
    }
  }

  /** `r` is the infix of `s` starting at `i`, with only whitespace around it. */
  predicate StrippedAt(s: string, r: string, i: int) {
    && 0 <= i <= i + |r| <= |s|
    && r == s[i..i + |r|]
    && (forall k :: 0 <= k < i ==> IsSpace(s[k]))
    && (forall k :: i + |r| <= k < |s| ==> IsSpace(s[k]))
  }

  /** Length of the first line of `s`, its '\n' included when it has one. */
  function LineLength(s: string): (n: nat)
    ensures n <= |s|
    ensures s != [] ==> 0 < n && (n == |s| || s[n - 1] == '\n')
  {
    if s == [] then 0 else if s[0] == '\n' then 1 else 1 + LineLength(s[1..])
  }

  function Concat(lines: seq<string>): string {
    if lines == [] then "" else lines[0] + Concat(lines[1..])
  }

  /** The lines iterating over a text file yields: the text is cut after
      each '\n', so every line ends at its first '\n' and only the last one
      may lack it. */
  function FileLines(s: string): (lines: seq<string>)
    ensures lines == [] <==> s == []
    ensures IsLineCut(lines)
    decreases |s|
  {
    if s == [] then []
    else
      var n := LineLength(s);
      var rest := FileLines(s[n..]);
      FirstLineShaped(s);
      ConsLineCut(s[..n], rest);
      [s[..n]] + rest
  }

  /** A line as a text file yields it: not empty, '\n' at most as its last
      character, and '\n' there unless it is the last line. */
  predicate LineShaped(x: string, last: bool) {
    && x != []
    && (forall m :: 0 <= m < |x| - 1 ==> x[m] != '\n')
    && (last || x[|x| - 1] == '\n')
  }

  /** Every line of `lines` is shaped as a text file yields it. */
  predicate IsLineCut(lines: seq<string>) {
    forall k :: 0 <= k < |lines| ==> LineShaped(lines[k], k == |lines| - 1)
  }

  lemma {:induction false} LineLengthNoBreak(s: string)
    ensures forall m :: 0 <= m < LineLength(s) - 1 ==> s[m] != '\n'
  {
    if s != [] && s[0] != '\n' {
      LineLengthNoBreak(s[1..]);
      forall m | 1 <= m < LineLength(s) - 1 ensures s[m] != '\n' {
        assert s[m] == s[1..][m - 1];
      }
    }
  }

  lemma FirstLineShaped(s: string)
    requires s != []
    ensures LineShaped(s[..LineLength(s)], s[LineLength(s)..] == [])
  {
    LineLengthNoBreak(s);
  }

  lemma ConsLineCut(x: string, rest: seq<string>)
    requires LineShaped(x, rest == []) && IsLineCut(rest)
    ensures IsLineCut([x] + rest)
  {
    forall k | 0 < k < |[x] + rest| ensures LineShaped(([x] + rest)[k], k == |[x] + rest| - 1) {
      assert ([x] + rest)[k] == rest[k - 1];
    }
  }

  /** Together the lines make up the whole contents. */
  lemma {:induction false} FileLinesCover(s: string)
    ensures Concat(FileLines(s)) == s
    decreases |s|
  {
    if s != [] {
      var n := LineLength(s);
      FileLinesCover(s[n..]);
      assert s == s[..n] + s[n..];
      assert FileLines(s)[1..] == FileLines(s[n..]);
    }
  }

  /** `load_seen`: the set of stripped lines, or the empty set when the file
      does not exist. */
  function LoadSeen(file: Option<string>): (seen: set<string>)
    ensures file.None? ==> seen == {}
    ensures forall x :: x in seen ==> x == [] || (!IsSpace(x[0]) && !IsSpace(x[|x| - 1]))
  {
    match file
    case None => {}
    case Some(contents) => set line | line in FileLines(contents) :: Strip(line)
  }

  /** An identifier that survives being written as a line and read back:
      no line break inside, no whitespace at either end. */
  predicate IsCleanId(x: string) {
    && (forall k :: 0 <= k < |x| ==> x[k] != '\n' && x[k] != '\r')
    && (x == [] || (!IsSpace(x[0]) && !IsSpace(x[|x| - 1])))
  }

  /** What `save_seen` writes when it meets the identifiers in this order. */
  function Render(order: seq<string>): (s: string)
    ensures s == [] || s[|s| - 1] == '\n'
  {
    if order == [] then "" else Render(order[..|order| - 1]) + order[|order| - 1] + "\n"
  }

  /** `save_seen`: writes every member of `seen`, one per line, in an order
      the set iteration chooses (returned as the ghost `order`). */
  method SaveSeen(seen: set<string>) returns (contents: string, ghost order: seq<string>)
    ensures contents == Render(order)
    ensures Distinct(order) && |order| == |seen|
    ensures forall x :: x in order <==> x in seen
    ensures (forall x :: x in seen ==> IsCleanId(x)) ==> LoadSeen(Some(contents)) == seen
  {
    contents, order := "", [];
    var rest := seen;
    while rest != {}
      invariant rest <= seen
      invariant contents == Render(order)
      invariant forall x :: x in order <==> x in seen && x !in rest
      invariant Distinct(order) && |order| + |rest| == |seen|
      decreases |rest|
    {
      var item :| item in rest;
      contents := contents + item + "\n";
      order := order + [item];
      rest := rest - {item};
    }
    if forall x :: x in seen ==> IsCleanId(x) {
      SaveThenLoad(order);
    }
  }

  /** A hex digest is a clean identifier. */
  lemma HexDigestIsClean(h: string)
    requires Identity.IsHexDigest(h)
    ensures IsCleanId(h)
  {
    assert Identity.IsHexChar(h[0]) && Identity.IsHexChar(h[|h| - 1]);
  }

  lemma {:induction false} LineLengthOfLine(x: string)
    requires forall k :: 0 <= k < |x| ==> x[k] != '\n'
    ensures LineLength(x + "\n") == |x| + 1
  {
    if x != [] {
      assert (x + "\n")[1..] == x[1..] + "\n";
      LineLengthOfLine(x[1..]);
    }
  }

  lemma {:induction false} LineLengthOfPrefix(a: string, b: string)
    requires a != [] && a[|a| - 1] == '\n'
    ensures LineLength(a + b) == LineLength(a)
  {
    if a[0] != '\n' {
      assert (a + b)[1..] == a[1..] + b;
      LineLengthOfPrefix(a[1..], b);
    }
  }

  /** One unfolding of `FileLines`: the first line, then the lines of the rest. */
  lemma FileLinesStep(s: string)
    requires s != []
    ensures FileLines(s) == [s[..LineLength(s)]] + FileLines(s[LineLength(s)..])
  {
  }

  /** The first line of `a + b` is that of `a` when `a` ends a line. */
  lemma FileLinesSplitHead(a: string, b: string)
    requires a != [] && a[|a| - 1] == '\n'
    ensures FileLines(a + b) == [a[..LineLength(a)]] + FileLines(a[LineLength(a)..] + b)
  {
    var n := LineLength(a);
    LineLengthOfPrefix(a, b);
    FileLinesStep(a + b);
    assert (a + b)[..n] == a[..n] && (a + b)[n..] == a[n..] + b;
  }

  /** What follows the first line of a text that ends a line still ends a line. */
  lemma RestEndsLine(a: string)
    requires a != [] && a[|a| - 1] == '\n'
    ensures a[LineLength(a)..] == [] || a[LineLength(a)..][|a[LineLength(a)..]| - 1] == '\n'
  {
  }

  lemma ConsAppend<T>(whole: seq<T>, left: seq<T>, x: T, p: seq<T>, q: seq<T>)
    requires whole == [x] + (p + q) && left == [x] + p
    ensures whole == left + q
  {
  }

  /** Lines of a file are cut independently on either side of a line end. */
  lemma {:induction false} FileLinesAppend(a: string, b: string)
    requires a == [] || a[|a| - 1] == '\n'
    ensures FileLines(a + b) == FileLines(a) + FileLines(b)
    decreases |a|
  {
    if a == [] {
      assert a + b == b;
    } else {
      var n := LineLength(a);
      FileLinesSplitHead(a, b);
      RestEndsLine(a);
      FileLinesStep(a);
      FileLinesAppend(a[n..], b);
      ConsAppend(FileLines(a + b), FileLines(a), a[..n], FileLines(a[n..]), FileLines(b));
    }
  }

  /** The lines `save_seen` writes for the identifiers in this order. */
  function WrittenLines(order: seq<string>): (lines: seq<string>)
    ensures |lines| == |order|
    ensures forall k :: 0 <= k < |order| ==> lines[k] == order[k] + "\n"
  {
    if order == [] then [] else WrittenLines(order[..|order| - 1]) + [order[|order| - 1] + "\n"]
  }

  /** Reading back what was written gives one line per identifier. */
  lemma {:induction false} FileLinesOfRender(order: seq<string>)
    requires forall k :: 0 <= k < |order| ==> IsCleanId(order[k])
    ensures FileLines(Render(order)) == WrittenLines(order)
  {
    if order != [] {
      var p := order[..|order| - 1];
      var x := order[|order| - 1];
      FileLinesOfRender(p);
      assert Render(order) == Render(p) + (x + "\n");
      FileLinesAppend(Render(p), x + "\n");
      assert FileLines(x + "\n") == [x + "\n"] by {
        LineLengthOfLine(x);
        assert (x + "\n")[..|x| + 1] == x + "\n";
        assert (x + "\n")[|x| + 1..] == [];
      }
    }
  }

  /** Stripping a written line gives back the clean identifier. */
  lemma StripLine(x: string)
    requires IsCleanId(x)
    ensures Strip(x + "\n") == x
  {
    var s := x + "\n";
    if x == [] {
      assert LeadingSpaces(s) == 1 by { assert s[1..] == []; }
      assert s[1..] == [];
    } else {
      assert LeadingSpaces(s) == 0;
      assert s[0..] == s && s[..|s| - 1] == x;
      assert TrailingStart(s) == |x|;
    }
  }

  /** Round trip: loading what `save_seen` wrote gives back the same set,
      provided every identifier is clean (hex digests are). */
  lemma SaveThenLoad(order: seq<string>)
    requires forall x :: x in order ==> IsCleanId(x)
    ensures LoadSeen(Some(Render(order))) == set x | x in order
  {
    FileLinesOfRender(order);
    var loaded := LoadSeen(Some(Render(order)));
    forall x | x in order ensures x in loaded {
      WrittenIsLoaded(order, x);
    }
    forall y | y in loaded ensures y in order {
      LoadedWasWritten(order, y);
    }
  }

  lemma WrittenIsLoaded(order: seq<string>, x: string)
    requires forall x :: x in order ==> IsCleanId(x)
    requires FileLines(Render(order)) == WrittenLines(order)
    requires x in order
    ensures x in LoadSeen(Some(Render(order)))
  {
    var lines := WrittenLines(order);
    var k :| 0 <= k < |order| && order[k] == x;
    StripLine(x);
    assert lines[k] in lines && Strip(lines[k]) == x;
  }

  lemma LoadedWasWritten(order: seq<string>, y: string)
    requires forall x :: x in order ==> IsCleanId(x)
    requires FileLines(Render(order)) == WrittenLines(order)
    requires y in LoadSeen(Some(Render(order)))
    ensures y in order
  {
    var lines := WrittenLines(order);
    var k :| 0 <= k < |lines| && Strip(lines[k]) == y;
    StripLine(order[k]);
  }
}

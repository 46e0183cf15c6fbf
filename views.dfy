/**
 The derived views of the `Results` collection in `hunter.py`: `contents`,
 `content_occurence`, `content_unique`, `paths`, `paths_unique` and `heatmap`.
 The collection is the sequence of entries `find_by_headers` builds, and
 every view is a pure projection of it.
 */
module Views {
  import opened Text
  import opened Hunter

  /** A `content_occurence` item: raw text and its number of occurrences. */
  type Item = (String, nat)

  // ---------------------------------------------------------------------------
  // contents and paths
  // ---------------------------------------------------------------------------

  /** `contents`: the raw text of every entry, in collection order, duplicates kept. */
  function Contents(rs: seq<Result>): (cs: seq<String>)
    ensures |cs| == |rs|
    ensures forall i :: 0 <= i < |rs| ==> cs[i] == rs[i].content
  {
    seq(|rs|, i requires 0 <= i < |rs| => rs[i].content)
  }

  /** `paths`: the source path of every entry, in collection order, duplicates kept. */
  function Paths(rs: seq<Result>): (ps: seq<Path>)
    ensures |ps| == |rs|
    ensures forall i :: 0 <= i < |rs| ==> ps[i] == rs[i].path
  {
    seq(|rs|, i requires 0 <= i < |rs| => rs[i].path)
  }

  /** The views distribute over the concatenation of collections. */
  lemma ContentsAppend(a: seq<Result>, b: seq<Result>)
    ensures Contents(a + b) == Contents(a) + Contents(b)
    ensures Paths(a + b) == Paths(a) + Paths(b)
  {
  }

  // ---------------------------------------------------------------------------
  // list.count and dict insertion order
  // ---------------------------------------------------------------------------

  /** `xs.count(x)`. */
  function Count(xs: seq<String>, x: String): (n: nat)
    ensures n == multiset(xs)[x]
    ensures n <= |xs|
    ensures n > 0 <==> x in xs
    decreases |xs|
  {
    if xs == [] then 0
    else
      assert xs == xs[..|xs| - 1] + [xs[|xs| - 1]];
      Count(xs[..|xs| - 1], x) + (if xs[|xs| - 1] == x then 1 else 0)
  }

  ghost predicate NoDuplicates<T>(s: seq<T>)
  {
    forall i, j :: 0 <= i < j < |s| ==> s[i] != s[j]
  }

  /** The keys of a dict built by iterating over `xs`, in insertion order:
      every distinct element once, in order of first occurrence. */
  function Distinct(xs: seq<String>): (d: seq<String>)
    ensures NoDuplicates(d)
    ensures forall x :: x in d <==> x in xs
    decreases |xs|
  {
    if xs == [] then []
    else
      var d := Distinct(xs[..|xs| - 1]);
      var x := xs[|xs| - 1];
      assert xs == xs[..|xs| - 1] + [x];
      if x in d then d else d + [x]
  }

  /** The `(key, xs.count(key))` pairs for `keys`, in order. */
  function Items(keys: seq<String>, xs: seq<String>): seq<Item>
    decreases |keys|
  {
    if keys == [] then []
    else Items(keys[..|keys| - 1], xs) + [(keys[|keys| - 1], Count(xs, keys[|keys| - 1]))]
  }

  /** The sum of the counts of a sequence of items. */
  function Total(items: seq<Item>): nat
    decreases |items|
  {
    if items == [] then 0 else items[0].1 + Total(items[1..])
  }

  // ---------------------------------------------------------------------------
  // content_occurence
  // ---------------------------------------------------------------------------

  /** `content_occurence`: every distinct raw text mapped to the number of entries with it. */
  function ContentOccurence(rs: seq<Result>): (m: map<String, nat>)
    ensures forall c :: c in m <==> exists i :: 0 <= i < |rs| && rs[i].content == c
    ensures forall c :: c in m ==> m[c] == multiset(Contents(rs))[c]
    ensures forall c :: c in m ==> 1 <= m[c] <= |rs|
  {
    var cs := Contents(rs);
    map c | c in cs :: Count(cs, c)
  }

  /** `content_occurence.items()`, in the dict's insertion order. */
  function OccurrenceItems(rs: seq<Result>): seq<Item>
  {
    var cs := Contents(rs);
    Items(Distinct(cs), cs)
  }

  /** The items list every key of the map once, each with its mapped count. */
  lemma OccurrenceItemsMatch(rs: seq<Result>)
    ensures |OccurrenceItems(rs)| == |ContentOccurence(rs)|
    ensures forall e :: e in OccurrenceItems(rs) ==>
              e.0 in ContentOccurence(rs) && ContentOccurence(rs)[e.0] == e.1
    ensures forall c :: c in ContentOccurence(rs) ==> exists n :: (c, n) in OccurrenceItems(rs)
  {
    var cs := Contents(rs);
    var d := Distinct(cs);
    var m := ContentOccurence(rs);
    ItemsAt(d, cs);
    OccurrenceKeys(rs);
    forall c | c in m ensures exists n :: (c, n) in OccurrenceItems(rs) {
      var i :| 0 <= i < |d| && d[i] == c;
      assert OccurrenceItems(rs)[i] == (c, Count(cs, c));
    }
  }

  /** The keys of `content_occurence` are the dict's keys in insertion order, one each. */
  lemma OccurrenceKeys(rs: seq<Result>)
    ensures ContentOccurence(rs).Keys == set x | x in Distinct(Contents(rs))
    ensures |ContentOccurence(rs)| == |Distinct(Contents(rs))|
  {
    var d := Distinct(Contents(rs));
    NoDuplicatesCard(d);
    assert ContentOccurence(rs).Keys == set x | x in d;
  }

  lemma {:induction false} ItemsAt(keys: seq<String>, xs: seq<String>)
    ensures |Items(keys, xs)| == |keys|
    ensures forall i :: 0 <= i < |keys| ==> Items(keys, xs)[i] == (keys[i], Count(xs, keys[i]))
    decreases |keys|
  {
    if keys != [] {
      var init := keys[..|keys| - 1];
      ItemsAt(init, xs);
      var r := Items(keys, xs);
      assert r == Items(init, xs) + [(keys[|keys| - 1], Count(xs, keys[|keys| - 1]))];
      forall i | 0 <= i < |keys| ensures r[i] == (keys[i], Count(xs, keys[i])) {
        if i < |init| {
          assert keys[i] == init[i];
        }
      }
    }
  }

  /** A sequence without duplicates has as many elements as its set. */
  lemma {:induction false} NoDuplicatesCard(d: seq<String>)
    requires NoDuplicates(d)
    ensures |set x | x in d| == |d|
    decreases |d|
  {
    if d != [] {
      var e := d[..|d| - 1];
      var y := d[|d| - 1];
      assert d == e + [y];
      NoDuplicatesCard(e);
      assert (set x | x in d) == (set x | x in e) + {y};
      assert y !in (set x | x in e);
    }
  }

  /** An element of a sequence without duplicates occurs in it exactly once. */
  lemma {:induction false} CountNoDuplicates(d: seq<String>, x: String)
    requires NoDuplicates(d) && x in d
    ensures Count(d, x) == 1
    decreases |d|
  {
    var e := d[..|d| - 1];
    assert d == e + [d[|d| - 1]];
    if d[|d| - 1] != x {
      CountNoDuplicates(e, x);
    } else {
      assert x !in e;
    }
  }

  /** Appending one element to the counted sequence adds, to the total over `keys`,
      the number of times that element is a key. */
  lemma {:induction false} ItemsTotalSnoc(keys: seq<String>, xs: seq<String>, x: String)
    ensures Total(Items(keys, xs + [x])) == Total(Items(keys, xs)) + Count(keys, x)
    decreases |keys|
  {
    if keys != [] {
      var init := keys[..|keys| - 1];
      var k := keys[|keys| - 1];
      ItemsTotalSnoc(init, xs, x);
      assert (xs + [x])[..|xs|] == xs;
      TotalAppend(Items(init, xs + [x]), [(k, Count(xs + [x], k))]);
      TotalAppend(Items(init, xs), [(k, Count(xs, k))]);
    }
  }

  lemma {:induction false} TotalAppend(a: seq<Item>, b: seq<Item>)
    ensures Total(a + b) == Total(a) + Total(b)
    decreases |a|
  {
    if a == [] {
      assert a + b == b;
    } else {
      assert (a + b)[1..] == a[1..] + b;
      TotalAppend(a[1..], b);
    }
  }

  /** Summed over the distinct elements of `xs`, the counts add up to `|xs|`. */
  lemma {:induction false} DistinctCountsSum(xs: seq<String>)
    ensures Total(Items(Distinct(xs), xs)) == |xs|
    decreases |xs|
  {
    if xs != [] {
      var ys := xs[..|xs| - 1];
      var x := xs[|xs| - 1];
      var d := Distinct(ys);
      assert xs == ys + [x];
      DistinctCountsSum(ys);
      ItemsTotalSnoc(d, ys, x);
      if x in d {
        CountNoDuplicates(d, x);
      } else {
        assert (d + [x])[..|d|] == d;
        TotalAppend(Items(d, xs), [(x, Count(xs, x))]);
      }
    }
  }

  /** The occurrence counts add up to the number of entries. */
  lemma OccurrenceSum(rs: seq<Result>)
    ensures Total(OccurrenceItems(rs)) == |rs|
  {
    DistinctCountsSum(Contents(rs));
  }

  // ---------------------------------------------------------------------------
  // heatmap
  // ---------------------------------------------------------------------------

  ghost predicate NonIncreasing(items: seq<Item>)
  {
    forall i, j :: 0 <= i < j < |items| ==> items[i].1 >= items[j].1
  }

  /** Inserts `p` after every item whose count is at least its own. */
  function Insert(p: Item, s: seq<Item>): (r: seq<Item>)
    ensures multiset(r) == multiset(s) + multiset{p}
    decreases |s|
  {
    if s == [] then [p]
    else if s[0].1 >= p.1 then
      assert s == [s[0]] + s[1..];
      [s[0]] + Insert(p, s[1..])
    else [p] + s
  }

  /** Inserting an item adds its count to the total. */
  lemma {:induction false} InsertTotal(p: Item, s: seq<Item>)
    ensures Total(Insert(p, s)) == Total(s) + p.1
    decreases |s|
  {
    if s != [] && s[0].1 >= p.1 {
      InsertTotal(p, s[1..]);
      assert ([s[0]] + Insert(p, s[1..]))[1..] == Insert(p, s[1..]);
    }
  }

  /** Putting an item in front of an ordered list whose counts are all at most its own
      keeps the list ordered. */
  lemma ConsNonIncreasing(x: Item, t: seq<Item>)
    requires NonIncreasing(t)
    requires forall e :: e in t ==> e.1 <= x.1
    ensures NonIncreasing([x] + t)
  {
    forall i, j | 0 <= i < j < |[x] + t| ensures ([x] + t)[i].1 >= ([x] + t)[j].1 {
      assert ([x] + t)[j] == t[j - 1];
      if i == 0 {
        assert t[j - 1] in t;
      } else {
        assert ([x] + t)[i] == t[i - 1];
      }
    }
  }

  /** Inserting into a list ordered by count, largest first, keeps it so ordered. */
  lemma {:induction false} InsertOrdered(p: Item, s: seq<Item>)
    requires NonIncreasing(s)
    ensures NonIncreasing(Insert(p, s))
    decreases |s|
  {
    if s == [] {
    } else if s[0].1 >= p.1 {
      var tail := Insert(p, s[1..]);
      InsertOrdered(p, s[1..]);
      forall e | e in tail ensures e.1 <= s[0].1 {
        assert e in multiset(tail);
        if e != p {
          assert e in multiset(s[1..]);
          var j :| 0 <= j < |s[1..]| && s[1..][j] == e;
          assert s[j + 1] == e;
        }
      }
      ConsNonIncreasing(s[0], tail);
    } else {
      forall e | e in s ensures e.1 <= p.1 {
        var j :| 0 <= j < |s| && s[j] == e;
        assert s[0].1 >= s[j].1;
      }
      ConsNonIncreasing(p, s);
    }
  }

  /** `sorted(items, key=count, reverse=True)`, as a stable insertion sort. */
  function SortByCount(items: seq<Item>): (r: seq<Item>)
    ensures multiset(r) == multiset(items)
    ensures NonIncreasing(r)
    ensures Total(r) == Total(items)
    decreases |items|
  {
    if items == [] then []
    else
      var init := items[..|items| - 1];
      var last := items[|items| - 1];
      assert items == init + [last];
      TotalAppend(init, [last]);
      InsertOrdered(last, SortByCount(init));
      InsertTotal(last, SortByCount(init));
      Insert(last, SortByCount(init))
  }

  /** `heatmap`: the occurrence items ordered by count, largest first. */
  function Heatmap(rs: seq<Result>): (h: seq<Item>)
    ensures NonIncreasing(h)
    ensures multiset(h) == multiset(OccurrenceItems(rs))
  {
    SortByCount(OccurrenceItems(rs))
  }

  /** The heatmap lists each distinct raw text once with its count, and its counts add
      up to the number of entries. */
  lemma HeatmapMatchesOccurrence(rs: seq<Result>)
    ensures |Heatmap(rs)| == |ContentOccurence(rs)|
    ensures forall e :: e in Heatmap(rs) ==>
              e.0 in ContentOccurence(rs) && ContentOccurence(rs)[e.0] == e.1
    ensures forall c :: c in ContentOccurence(rs) ==> (c, ContentOccurence(rs)[c]) in Heatmap(rs)
    ensures Total(Heatmap(rs)) == |rs|
  {
    var h := Heatmap(rs);
    var items := OccurrenceItems(rs);
    OccurrenceItemsMatch(rs);
    OccurrenceSum(rs);
    assert |h| == |multiset(h)| == |multiset(items)| == |items|;
    forall e | e in h ensures e in items {
      assert e in multiset(h);
    }
    forall c | c in ContentOccurence(rs) ensures (c, ContentOccurence(rs)[c]) in h {
      var n :| (c, n) in items;
      assert (c, n) in multiset(items);
    }
  }

  // ---------------------------------------------------------------------------
  // content_unique and paths_unique
  // ---------------------------------------------------------------------------

  /** `content_unique`: the sanitized texts of the entries, each once. */
  function ContentUnique(rs: seq<Result>): (u: set<String>)
    ensures forall s :: s in u <==> exists i :: 0 <= i < |rs| && Sanitized(rs[i].content) == s
  {
    set c | c in Contents(rs) :: Sanitized(c)
  }

  /** Entries whose texts all sanitize to the same text leave exactly that text. */
  lemma ContentUniqueSingle(rs: seq<Result>, t: String)
    requires rs != []
    requires forall i :: 0 <= i < |rs| ==> Sanitized(rs[i].content) == t
    ensures ContentUnique(rs) == {t}
  {
    var u := ContentUnique(rs);
    forall y | y in u ensures y == t {
      var i :| 0 <= i < |rs| && Sanitized(rs[i].content) == y;
    }
    assert t in u by {
      assert Sanitized(rs[0].content) == t;
    }
  }

  /** `paths_unique`: the source paths of the entries, each once. */
  function PathsUnique(rs: seq<Result>): (u: set<Path>)
    ensures forall p :: p in u <==> exists i :: 0 <= i < |rs| && rs[i].path == p
  {
    set p | p in Paths(rs)
  }

  /** Every member of `content_unique` is already sanitized. */
  lemma ContentUniqueSanitized(rs: seq<Result>)
    ensures forall s :: s in ContentUnique(rs) ==> Sanitized(s) == s
  {
    forall s | s in ContentUnique(rs) ensures Sanitized(s) == s {
      var i :| 0 <= i < |rs| && Sanitized(rs[i].content) == s;
      SanitizedIdempotent(rs[i].content);
    }
  }

  /** Sanitizing merges texts: there are never more unique sanitized texts than distinct
      raw texts, the asymmetry between `content_unique` and `content_occurence`. */
  lemma UniqueAtMostOccurrences(rs: seq<Result>)
    ensures |ContentUnique(rs)| <= |ContentOccurence(rs)|
  {
    var keys := ContentOccurence(rs).Keys;
    var u := ContentUnique(rs);
    forall y | y in u ensures exists c :: c in keys && Sanitized(c) == y {
      var i :| 0 <= i < |rs| && Sanitized(rs[i].content) == y;
      assert rs[i].content in keys;
    }
    CoveredByImageCard(u, keys, Sanitized);
  }

  /** A set whose every member is an image of some member of `s` is no larger than `s`. */
  lemma CoveredByImageCard(u: set<String>, s: set<String>, f: String -> String)
    requires forall y :: y in u ==> exists c :: c in s && f(c) == y
    ensures |u| <= |s|
  {
    ImageCard(s, f);
    var image := set c | c in s :: f(c);
    assert u <= image;
    assert image == u + (image - u);
    assert |image| == |u| + |image - u|;
  }

  /** The image of a finite set under a function is no larger than the set. */
  lemma {:induction false} ImageCard(s: set<String>, f: String -> String)
    ensures |set c | c in s :: f(c)| <= |s|
    decreases |s|
  {
    if s != {} {
      var a :| a in s;
      ImageCard(s - {a}, f);
      var image := set c | c in s :: f(c);
      var rest := set c | c in s - {a} :: f(c);
      assert image == rest + {f(a)};
    }
  }

  /** The paths of the collection are paths of enumerated files. */
  lemma PathsUniqueFromFiles(files: seq<SourceFile>, phrases: seq<String>)
    ensures forall p :: p in PathsUnique(FindAll(files, phrases)) ==>
              exists k :: 0 <= k < |files| && files[k].path == p
  {
    FindAllEntries(files, phrases);
    var rs := FindAll(files, phrases);
    forall p | p in PathsUnique(rs) ensures exists k :: 0 <= k < |files| && files[k].path == p {
      var i :| 0 <= i < |rs| && rs[i].path == p;
      assert rs[i] in rs;
    }
  }

  // ---------------------------------------------------------------------------
  // Line order within a file
  // ---------------------------------------------------------------------------

  /** `xs` can be obtained from `ys[i..j]` by deleting elements. */
  ghost predicate SubsequenceOf(xs: seq<String>, ys: seq<String>, i: int, j: int)
    decreases j - i
  {
    || xs == []
    || (&& 0 <= i < j <= |ys|
        && ((xs[0] == ys[i] && SubsequenceOf(xs[1..], ys, i + 1, j)) || SubsequenceOf(xs, ys, i + 1, j)))
  }

  /** The captured texts of a scan keep the order of the scanned lines. */
  lemma {:induction false} ScanKeepsLineOrder(path: Path, lines: seq<String>, i: int, j: int, phrases: seq<String>, found: bool)
    requires 0 <= i <= j <= |lines|
    ensures SubsequenceOf(Contents(Scan(path, lines, i, j, phrases, found)), lines, i, j)
    decreases j - i
  {
    if i < j {
      var f := NextFound(found, lines[i], phrases);
      var tail := Scan(path, lines, i + 1, j, phrases, f);
      ScanKeepsLineOrder(path, lines, i + 1, j, phrases, f);
      var xs := Contents(Scan(path, lines, i, j, phrases, found));
      if Emits(f, lines[i]) {
        assert Scan(path, lines, i, j, phrases, found) == [Result(path, lines[i])] + tail;
        assert xs[1..] == Contents(tail);
      } else {
        assert xs == Contents(tail);
      }
    }
  }
}

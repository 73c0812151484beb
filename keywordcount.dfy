/** `count_words`: the same cursor walk as `recurse`, counting, for every
    keyword, the whitespace tokens of every title that equal the lowered
    keyword, then printing the positive counts ordered by count descending
    and keyword ascending, once, after the last page. */
module KeywordCount {
  import opened Listing
  import opened Text
  import opened Counts
  import opened Pagination
  import opened Seqs

  // ---------------------------------------------------------------------------
  // What the counting loops compute

  /** `title.lower().split()`: non-empty whitespace-free tokens that together
      hold every non-whitespace character of the lowered title, in order. */
  function Tokens(title: string): (ts: seq<string>)
    ensures forall i :: 0 <= i < |ts| ==> ts[i] != [] && NoSpace(ts[i])
    ensures Concat(ts) == Strip(Lower(title))
  {
    SplitKeepsText(Lower(title));
    Split(Lower(title))
  }

  /** The inner loop over `word_list` for one tokenized title:
      `counts[word.lower()] += title.count(word.lower())` for each word in turn. */
  function CountTitle(items: seq<Entry>, tokens: seq<string>, words: seq<string>): (r: seq<Entry>)
    ensures KeysUnique(items) ==> KeysUnique(r)
    decreases |words|
  {
    if words == [] then items
    else
      var w := Lower(words[|words| - 1]);
      Bump(CountTitle(items, tokens, words[..|words| - 1]), w, Occurrences(tokens, w))
  }

  /** The outer loop over the posts: the inner loop once per title, in order. */
  function CountTitles(items: seq<Entry>, titles: seq<string>, words: seq<string>): (r: seq<Entry>)
    ensures KeysUnique(items) ==> KeysUnique(r)
    decreases |titles|
  {
    if titles == [] then items
    else CountTitle(CountTitles(items, titles[..|titles| - 1], words), Tokens(titles[|titles| - 1]), words)
  }

  /** The counts the walk over `rs` leaves in `counts`, from `items` on:
      every page fetched with status 200 is counted, a failing page stops the walk. */
  function CountWalk(items: seq<Entry>, rs: seq<Response>, words: seq<string>): (r: seq<Entry>)
    requires Ends(rs)
    ensures KeysUnique(items) ==> KeysUnique(r)
    decreases |rs|
  {
    if !Ok(rs[0]) then items
    else
      var c := CountTitles(items, PageTitles(rs[0]), words);
      if Truthy(After(rs[0])) then CountWalk(c, rs[1..], words) else c
  }

  // ---------------------------------------------------------------------------
  // Reference definitions of the counts

  /** How many entries of `words` lower to `k`. */
  function Listed(words: seq<string>, k: string): nat
    decreases |words|
  {
    if words == [] then 0
    else Listed(words[..|words| - 1], k) + (if Lower(words[|words| - 1]) == k then 1 else 0)
  }

  /** How many tokens, over all `titles`, equal `k`. */
  function Hits(titles: seq<string>, k: string): nat
    decreases |titles|
  {
    if titles == [] then 0
    else Hits(titles[..|titles| - 1], k) + Occurrences(Tokens(titles[|titles| - 1]), k)
  }

  /** What one title adds to key `k`: the matches of `k` once per keyword lowering to it. */
  function TitleMatches(tokens: seq<string>, words: seq<string>, k: string): nat
    decreases |words|
  {
    if words == [] then 0
    else
      TitleMatches(tokens, words[..|words| - 1], k)
      + (if Lower(words[|words| - 1]) == k then Occurrences(tokens, k) else 0)
  }

  /** What a list of titles adds to key `k`. */
  function Matches(titles: seq<string>, words: seq<string>, k: string): nat
    decreases |titles|
  {
    if titles == [] then 0
    else Matches(titles[..|titles| - 1], words, k) + TitleMatches(Tokens(titles[|titles| - 1]), words, k)
  }

  lemma MulSucc(n: int, o: int)
    ensures (n + 1) * o == n * o + o
  {
  }

  lemma MulAdd(m: int, n: int, l: int, h: int, o: int, sum: int)
    requires m == l * h && n == l * o && sum == h + o
    ensures m + n == l * sum
  {
  }

  /** One title adds, to each key, the whole-token matches of that key once
      per listing of a keyword lowering to it. */
  lemma {:induction false} TitleMatchesProduct(tokens: seq<string>, words: seq<string>, k: string)
    ensures TitleMatches(tokens, words, k) == Listed(words, k) * Occurrences(tokens, k)
    decreases |words|
  {
    if words != [] {
      var front := words[..|words| - 1];
      TitleMatchesProduct(tokens, front, k);
      MulSucc(Listed(front, k), Occurrences(tokens, k));
    }
  }

  lemma {:induction false} MatchesProduct(titles: seq<string>, words: seq<string>, k: string)
    ensures Matches(titles, words, k) == Listed(words, k) * Hits(titles, k)
    decreases |titles|
  {
    if titles != [] {
      var front := titles[..|titles| - 1];
      var last := Tokens(titles[|titles| - 1]);
      MatchesProduct(front, words, k);
      TitleMatchesProduct(last, words, k);
      MulAdd(Matches(front, words, k), TitleMatches(last, words, k),
        Listed(words, k), Hits(front, k), Occurrences(last, k), Hits(titles, k));
    }
  }

  /** The inner loop adds exactly `TitleMatches` to key `k` and leaves no other key changed. */
  lemma {:induction false} CountTitleLookup(items: seq<Entry>, tokens: seq<string>, words: seq<string>, k: string)
    ensures Lookup(CountTitle(items, tokens, words), k) == Lookup(items, k) + TitleMatches(tokens, words, k)
    decreases |words|
  {
    if words != [] {
      CountTitleLookup(items, tokens, words[..|words| - 1], k);
    }
  }

  /** The outer loop adds the matches of every title. */
  lemma {:induction false} CountTitlesLookup(items: seq<Entry>, titles: seq<string>, words: seq<string>, k: string)
    ensures Lookup(CountTitles(items, titles, words), k) == Lookup(items, k) + Matches(titles, words, k)
    decreases |titles|
  {
    if titles != [] {
      var front := titles[..|titles| - 1];
      CountTitlesLookup(items, front, words, k);
      CountTitleLookup(CountTitles(items, front, words), Tokens(titles[|titles| - 1]), words, k);
    }
  }

  lemma {:induction false} CountTitlesAppend(items: seq<Entry>, a: seq<string>, b: seq<string>, words: seq<string>)
    ensures CountTitles(items, a + b, words) == CountTitles(CountTitles(items, a, words), b, words)
    decreases |b|
  {
    if b == [] {
      assert a + b == a;
    } else {
      assert (a + b)[..|a + b| - 1] == a + b[..|b| - 1];
      assert (a + b)[|a + b| - 1] == b[|b| - 1];
      CountTitlesAppend(items, a, b[..|b| - 1], words);
    }
  }

  lemma {:induction false} MatchesAppend(a: seq<string>, b: seq<string>, words: seq<string>, k: string)
    ensures Matches(a + b, words, k) == Matches(a, words, k) + Matches(b, words, k)
    decreases |b|
  {
    if b == [] {
      assert a + b == a;
    } else {
      assert (a + b)[..|a + b| - 1] == a + b[..|b| - 1];
      assert (a + b)[|a + b| - 1] == b[|b| - 1];
      MatchesAppend(a, b[..|b| - 1], words, k);
    }
  }

  /** Counting page by page during the walk is counting the title list that
      `recurse` would collect over the same responses. */
  lemma {:induction false} CountWalkCountsCollected(items: seq<Entry>, rs: seq<Response>, words: seq<string>)
    requires Ends(rs)
    ensures CountWalk(items, rs, words) == CountTitles(items, Collected(rs), words)
    decreases |rs|
  {
    if Ok(rs[0]) && Truthy(After(rs[0])) {
      var c := CountTitles(items, PageTitles(rs[0]), words);
      CountWalkCountsCollected(c, rs[1..], words);
      CountTitlesAppend(items, PageTitles(rs[0]), Collected(rs[1..]), words);
    }
  }

  /** The final count of every key: the initial count plus, once per keyword
      lowering to it, the number of tokens equal to it across every title the
      walk fetched. */
  lemma CountWalkLookup(items: seq<Entry>, rs: seq<Response>, words: seq<string>, k: string)
    requires Ends(rs)
    ensures Lookup(CountWalk(items, rs, words), k) == Lookup(items, k) + Listed(words, k) * Hits(Collected(rs), k)
  {
    CountWalkCountsCollected(items, rs, words);
    CountTitlesLookup(items, Collected(rs), words, k);
    MatchesProduct(Collected(rs), words, k);
  }

  /** A top-level call (`counts=None`) starts from an empty Counter, so its
      counts are the matches of this walk alone. */
  lemma FreshCountsFromZero(rs: seq<Response>, words: seq<string>, k: string)
    requires Ends(rs)
    ensures Lookup(CountWalk([], rs, words), k) == Listed(words, k) * Hits(Collected(rs), k)
  {
    CountWalkLookup([], rs, words, k);
  }

  /** The matches of a list of titles depend only on which titles it holds,
      not on their order. */
  lemma {:induction false} MatchesMultiset(a: seq<string>, b: seq<string>, words: seq<string>, k: string)
    requires multiset(a) == multiset(b)
    ensures Matches(a, words, k) == Matches(b, words, k)
    decreases |a|
  {
    if a == [] {
      assert |b| == |multiset(b)| == 0;
    } else {
      var front, x := a[..|a| - 1], a[|a| - 1];
      RemoveAt(a, |a| - 1);
      assert a[|a| - 1 + 1..] == [];
      assert front + [] == front;
      assert x in multiset(b);
      var p :| 0 <= p < |b| && b[p] == x;
      RemoveAt(b, p);
      MatchesMultiset(front, b[..p] + b[p + 1..], words, k);
      MatchesAt(b, p, words, k);
    }
  }

  /** The matches of a list are those of the element at `p` plus those of the rest. */
  lemma MatchesAt(b: seq<string>, p: nat, words: seq<string>, k: string)
    requires p < |b|
    ensures Matches(b, words, k)
      == Matches(b[..p] + b[p + 1..], words, k) + TitleMatches(Tokens(b[p]), words, k)
  {
    var b1, x, b2 := b[..p], b[p], b[p + 1..];
    assert b == b1 + [x] + b2;
    MatchesAppend(b1, b2, words, k);
    MatchesAppend(b1 + [x], b2, words, k);
    MatchesAppend(b1, [x], words, k);
    assert [x][..0] == [];
  }

  /** Accumulation does not depend on the order of the titles: any
      reordering of the same titles, such as the pages in another order,
      leaves every count unchanged. */
  lemma PageOrderIrrelevant(items: seq<Entry>, a: seq<string>, b: seq<string>, words: seq<string>, k: string)
    requires multiset(a) == multiset(b)
    ensures Lookup(CountTitles(items, a, words), k) == Lookup(CountTitles(items, b, words), k)
  {
    MatchesMultiset(a, b, words, k);
    CountTitlesLookup(items, a, words, k);
    CountTitlesLookup(items, b, words, k);
  }

  /** A repeated keyword ("react" and "React") adds its matches once per listing. */
  lemma RepeatedKeywordCountsTwice(tokens: seq<string>, w: string, v: string)
    requires Lower(w) == Lower(v)
    ensures Lookup(CountTitle([], tokens, [w, v]), Lower(w)) == 2 * Occurrences(tokens, Lower(w))
  {
    CountTitleLookup([], tokens, [w, v], Lower(w));
    assert [w, v][..1] == [w] && [w, v][1] == v;
    assert [w][..0] == [] && [w][0] == w;
    var k, o := Lower(w), Occurrences(tokens, Lower(w));
    assert TitleMatches(tokens, [w], k) == TitleMatches(tokens, [], k) + o;
    assert TitleMatches(tokens, [w, v], k) == TitleMatches(tokens, [w], k) + o;
  }

  /** Two words separated by one space split into those two words. */
  lemma TwoWords(a: string, b: string)
    requires a != [] && b != []
    requires NoSpace(a) && NoSpace(b)
    ensures Split(a + [' '] + b) == [a, b]
  {
    SplitAtSpace(a, ' ', b);
    SplitWord(a);
    SplitWord(b);
  }

  lemma ExampleLower()
    ensures Lower("the Cat") == "the cat"
  {
  }

  lemma ExampleTokens()
    ensures Tokens("the Cat") == ["the", "cat"]
  {
    ExampleLower();
    assert "the cat" == "the" + [' '] + "cat";
    TwoWords("the", "cat");
  }

  /** Matching is on whole lowered tokens: "the Cat" has one "cat" and no "at". */
  lemma WholeTokenMatch()
    ensures Occurrences(Tokens("the Cat"), "cat") == 1
    ensures Occurrences(Tokens("the Cat"), "at") == 0
  {
    ExampleTokens();
    assert "the" != "cat" && "the" != "at" && "cat" != "at";
  }

  // ---------------------------------------------------------------------------
  // The report: `sorted(counts.items(), key=lambda x: (-x[1], x[0]))`

  /** `x` sorts no later than `y` under the key `(-count, word)`. */
  predicate KeyLe(x: Entry, y: Entry)
  {
    x.1 > y.1 || (x.1 == y.1 && (x.0 == y.0 || StrLess(x.0, y.0)))
  }

  /** `x` sorts strictly before `y`. */
  predicate KeyLess(x: Entry, y: Entry)
  {
    x.1 > y.1 || (x.1 == y.1 && StrLess(x.0, y.0))
  }

  predicate Sorted(s: seq<Entry>)
  {
    forall i, j :: 0 <= i < j < |s| ==> KeyLe(s[i], s[j])
  }

  predicate StrictlySorted(s: seq<Entry>)
  {
    forall i, j :: 0 <= i < j < |s| ==> KeyLess(s[i], s[j])
  }

  lemma KeyLeTotal(x: Entry, y: Entry)
    ensures KeyLe(x, y) || KeyLe(y, x)
  {
    StrLessTotal(x.0, y.0);
  }

  lemma KeyLeTransitive(x: Entry, y: Entry, z: Entry)
    requires KeyLe(x, y) && KeyLe(y, z)
    ensures KeyLe(x, z)
  {
    if x.1 == y.1 == z.1 && StrLess(x.0, y.0) && StrLess(y.0, z.0) {
      StrLessTransitive(x.0, y.0, z.0);
    }
  }

  lemma KeyLessAsymmetric(x: Entry, y: Entry)
    ensures !(KeyLess(x, y) && KeyLess(y, x))
    ensures !KeyLess(x, x)
  {
    StrLessTotal(x.0, y.0);
    StrLessIrreflexive(x.0);
  }

  lemma SortedTail(s: seq<Entry>)
    requires Sorted(s) && s != []
    ensures Sorted(s[1..])
  {
    forall i, j | 0 <= i < j < |s[1..]| ensures KeyLe(s[1..][i], s[1..][j]) {
      assert s[1..][i] == s[i + 1] && s[1..][j] == s[j + 1];
    }
  }

  /** Putting an entry that sorts no later than the head in front keeps a list sorted. */
  lemma ConsSorted(y: Entry, t: seq<Entry>)
    requires Sorted(t)
    requires t != [] ==> KeyLe(y, t[0])
    ensures Sorted([y] + t)
  {
    var r := [y] + t;
    forall i, j | 0 <= i < j < |r| ensures KeyLe(r[i], r[j]) {
      assert r[j] == t[j - 1];
      if i == 0 {
        if j > 1 {
          KeyLeTransitive(y, t[0], t[j - 1]);
        }
      } else {
        assert r[i] == t[i - 1];
      }
    }
  }

  /** Insert `x` into a sorted list, before the first entry it sorts no later than. */
  function Insert(x: Entry, s: seq<Entry>): (r: seq<Entry>)
    requires Sorted(s)
    ensures |r| == |s| + 1
    ensures r[0] == x || (s != [] && r[0] == s[0])
    ensures Sorted(r)
    ensures multiset(r) == multiset(s) + multiset{x}
    decreases |s|
  {
    if s == [] then [x]
    else if KeyLe(x, s[0]) then
      ConsSorted(x, s);
      [x] + s
    else
      SortedTail(s);
      KeyLeTotal(x, s[0]);
      var rest := Insert(x, s[1..]);
      ConsSorted(s[0], rest);
      assert s == [s[0]] + s[1..];
      [s[0]] + rest
  }

  /** `sorted(...)` by the key `(-count, word)`: an ordered permutation. */
  function SortByKey(s: seq<Entry>): (r: seq<Entry>)
    ensures Sorted(r)
    ensures multiset(r) == multiset(s)
    decreases |s|
  {
    if s == [] then []
    else
      assert s == [s[0]] + s[1..];
      Insert(s[0], SortByKey(s[1..]))
  }

  /** The entries the print loop emits: those with `count > 0`, in order. */
  function Positive(s: seq<Entry>): (r: seq<Entry>)
    ensures forall i :: 0 <= i < |r| ==> r[i].1 > 0
    ensures forall e :: e in r <==> e in s && e.1 > 0
    decreases |s|
  {
    if s == [] then []
    else
      var front := Positive(s[..|s| - 1]);
      var last := s[|s| - 1];
      assert s == s[..|s| - 1] + [last];
      if last.1 > 0 then front + [last] else front
  }

  /** Dropping the zero counts keeps the order. */
  lemma {:induction false} PositiveKeepsOrder(s: seq<Entry>)
    requires StrictlySorted(s)
    ensures StrictlySorted(Positive(s))
    decreases |s|
  {
    if s != [] {
      var front := s[..|s| - 1];
      assert StrictlySorted(front) by {
        forall i, j | 0 <= i < j < |front| ensures KeyLess(front[i], front[j]) {
          assert front[i] == s[i] && front[j] == s[j];
        }
      }
      PositiveKeepsOrder(front);
      var p := Positive(front);
      forall i | 0 <= i < |p| ensures KeyLess(p[i], s[|s| - 1]) {
        assert p[i] in front;
        var m :| 0 <= m < |front| && front[m] == p[i];
      }
    }
  }

  /** Two entries that sit at different places of a list occur twice in it. */
  lemma {:induction false} TwiceAtDistinctPlaces(s: seq<Entry>, i: nat, j: nat)
    requires i < j < |s| && s[i] == s[j]
    ensures multiset(s)[s[i]] >= 2
  {
    assert s == s[..j] + s[j..];
    assert s[i] == s[..j][i];
    assert s[j] == s[j..][0];
    assert multiset(s) == multiset(s[..j]) + multiset(s[j..]);
  }

  /** A sorted list without repeated entries is strictly sorted. */
  lemma SortedWithoutRepeatsIsStrict(s: seq<Entry>)
    requires Sorted(s)
    requires forall e :: multiset(s)[e] <= 1
    ensures StrictlySorted(s)
  {
    forall i, j | 0 <= i < j < |s| ensures KeyLess(s[i], s[j]) {
      if s[i] == s[j] {
        TwiceAtDistinctPlaces(s, i, j);
      }
    }
  }

  lemma StrictTail(s: seq<Entry>)
    requires StrictlySorted(s) && s != []
    ensures StrictlySorted(s[1..])
  {
    forall i, j | 0 <= i < j < |s[1..]| ensures KeyLess(s[1..][i], s[1..][j]) {
      assert s[1..][i] == s[i + 1] && s[1..][j] == s[j + 1];
    }
  }

  /** In a strictly sorted list every later entry sorts after the head,
      so none of them equals it. */
  lemma HeadIsLeast(s: seq<Entry>, e: Entry)
    requires StrictlySorted(s) && s != [] && e in s[1..]
    ensures KeyLess(s[0], e) && e != s[0]
  {
    var a :| 0 <= a < |s[1..]| && s[1..][a] == e;
    assert s[a + 1] == e;
    KeyLessAsymmetric(e, e);
  }

  /** Two strictly sorted lists with the same entries are the same list:
      the report order is total. */
  lemma {:induction false} StrictlySortedUnique(s: seq<Entry>, t: seq<Entry>)
    requires StrictlySorted(s) && StrictlySorted(t)
    requires forall e :: e in s <==> e in t
    ensures s == t
    decreases |s|
  {
    assert s == [] <==> t == [] by {
      if s != [] {
        assert s[0] in t;
      }
      if t != [] {
        assert t[0] in s;
      }
    }
    if s != [] {
      assert s[0] in t && t[0] in s;
      if s[0] != t[0] {
        assert s[0] in t[1..] && t[0] in s[1..];
        HeadIsLeast(s, t[0]);
        HeadIsLeast(t, s[0]);
        KeyLessAsymmetric(s[0], t[0]);
        assert false;
      }
      var s', t' := s[1..], t[1..];
      StrictTail(s);
      StrictTail(t);
      forall e ensures e in s' <==> e in t' {
        if e in s' {
          HeadIsLeast(s, e);
          assert e in t;
          var b :| 0 <= b < |t| && t[b] == e;
          assert t'[b - 1] == e;
        }
        if e in t' {
          HeadIsLeast(t, e);
          assert e in s;
          var b :| 0 <= b < |s| && s[b] == e;
          assert s'[b - 1] == e;
        }
      }
      StrictlySortedUnique(s', t');
      assert s == [s[0]] + s' && t == [t[0]] + t';
    }
  }

  /** The entries that reach the output, in output order. */
  function ReportEntries(items: seq<Entry>): seq<Entry>
  {
    Positive(SortByKey(items))
  }

  /** Sorting keeps exactly the items, and with unique keys repeats none. */
  lemma SortKeepsItems(items: seq<Entry>)
    requires KeysUnique(items)
    ensures forall e :: e in SortByKey(items) <==> e in items
    ensures StrictlySorted(SortByKey(items))
  {
    var sorted := SortByKey(items);
    forall e ensures e in sorted <==> e in items {
      assert e in sorted <==> e in multiset(sorted);
    }
    forall e ensures multiset(sorted)[e] <= 1 {
      NoRepeatedItem(items, e);
    }
    SortedWithoutRepeatsIsStrict(sorted);
  }

  /** What the report contains and in which order: exactly the items with a
      positive count, each once, by count descending, ties by keyword ascending. */
  lemma ReportEntriesSpec(items: seq<Entry>)
    requires KeysUnique(items)
    ensures forall e :: e in ReportEntries(items) <==> e in items && e.1 > 0
    ensures StrictlySorted(ReportEntries(items))
  {
    SortKeepsItems(items);
    PositiveKeepsOrder(SortByKey(items));
  }

  /** `f"{word}: {count}"` */
  function Line(e: Entry): string
    requires e.1 >= 0
  {
    e.0 + ": " + NatToString(e.1)
  }

  /** One output line per entry. */
  function Lines(s: seq<Entry>): (r: seq<string>)
    requires forall i :: 0 <= i < |s| ==> s[i].1 >= 0
    ensures |r| == |s|
    ensures forall i :: 0 <= i < |s| ==> r[i] == Line(s[i])
    decreases |s|
  {
    if s == [] then [] else Lines(s[..|s| - 1]) + [Line(s[|s| - 1])]
  }

  /** The lines the last page prints for the final counts `items`. */
  function Report(items: seq<Entry>): seq<string>
  {
    Lines(ReportEntries(items))
  }

  lemma {:induction false} NoMatches(titles: seq<string>, words: seq<string>, k: string)
    requires words == [] || titles == []
    ensures Matches(titles, words, k) == 0
    decreases |titles|
  {
    if titles != [] {
      NoMatches(titles[..|titles| - 1], words, k);
    }
  }

  /** With no keywords, or no posts, nothing is printed. */
  lemma EmptyReport(rs: seq<Response>, words: seq<string>)
    requires Ends(rs)
    requires words == [] || Collected(rs) == []
    ensures Report(CountWalk([], rs, words)) == []
  {
    var final := CountWalk([], rs, words);
    CountWalkCountsCollected([], rs, words);
    forall e | e in final ensures e.1 <= 0 {
      var i :| 0 <= i < |final| && final[i] == e;
      LookupAt(final, i);
      CountTitlesLookup([], Collected(rs), words, e.0);
      NoMatches(Collected(rs), words, e.0);
    }
    ReportEntriesSpec(final);
  }

  lemma SortLawItems()
    ensures KeysUnique([("dog", 3), ("cat", 3), ("fox", 1)])
  {
  }

  lemma SortLawOrder()
    ensures StrictlySorted([("cat", 3), ("dog", 3), ("fox", 1)])
  {
    assert StrLess("cat", "dog");
  }

  /** Sort law: counts {"dog": 3, "cat": 3, "fox": 1} print as cat, dog, fox. */
  lemma SortLawExample()
    ensures ReportEntries([("dog", 3), ("cat", 3), ("fox", 1)]) == [("cat", 3), ("dog", 3), ("fox", 1)]
  {
    var items := [("dog", 3), ("cat", 3), ("fox", 1)];
    var want := [("cat", 3), ("dog", 3), ("fox", 1)];
    SortLawItems();
    SortLawOrder();
    ReportEntriesSpec(items);
    StrictlySortedUnique(ReportEntries(items), want);
  }

  // ---------------------------------------------------------------------------
  // The imperative code

  /** One more entry of the sorted list: printed when its count is positive. */
  lemma PositiveStep(s: seq<Entry>, i: nat)
    requires i < |s|
    ensures s[i].1 > 0 ==> Lines(Positive(s[..i + 1])) == Lines(Positive(s[..i])) + [Line(s[i])]
    ensures s[i].1 <= 0 ==> Positive(s[..i + 1]) == Positive(s[..i])
  {
    assert s[..i + 1][..i] == s[..i];
    if s[i].1 > 0 {
      var p := Positive(s[..i]);
      assert Positive(s[..i + 1]) == p + [s[i]];
      assert (p + [s[i]])[..|p|] == p;
    }
  }

  /** The final print loop: `for word, count in sorted_counts: if count > 0: print(...)`. */
  method PrintReport(sortedCounts: seq<Entry>) returns (out: seq<string>)
    ensures out == Lines(Positive(sortedCounts))
  {
    out := [];
    var i := 0;
    while i < |sortedCounts|
      invariant 0 <= i <= |sortedCounts|
      invariant out == Lines(Positive(sortedCounts[..i]))
    {
      var entry := sortedCounts[i];
      PositiveStep(sortedCounts, i);
      if entry.1 > 0 {
        out := out + [Line(entry)];
      }
      i := i + 1;
    }
    assert sortedCounts[..i] == sortedCounts;
  }

  lemma CountTitleStep(items: seq<Entry>, tokens: seq<string>, words: seq<string>, j: nat)
    requires j < |words|
    ensures CountTitle(items, tokens, words[..j + 1])
      == Bump(CountTitle(items, tokens, words[..j]), Lower(words[j]), Occurrences(tokens, Lower(words[j])))
  {
    assert words[..j + 1][..j] == words[..j];
  }

  lemma CountTitlesStep(items: seq<Entry>, titles: seq<string>, words: seq<string>, i: nat)
    requires i < |titles|
    ensures CountTitles(items, titles[..i + 1], words)
      == CountTitle(CountTitles(items, titles[..i], words), Tokens(titles[i]), words)
  {
    assert titles[..i + 1][..i] == titles[..i];
  }

  /** The inner loop: `for word in word_list: counts[word.lower()] += title.count(word.lower())`. */
  method CountTitleInto(c: Counter, tokens: seq<string>, wordList: seq<string>)
    requires c.Valid()
    modifies c
    ensures c.Valid()
    ensures c.items == CountTitle(old(c.items), tokens, wordList)
  {
    ghost var before := c.items;
    var j := 0;
    while j < |wordList|
      invariant 0 <= j <= |wordList|
      invariant c.Valid()
      invariant c.items == CountTitle(before, tokens, wordList[..j])
    {
      var wordLower := Lower(wordList[j]);
      CountTitleStep(before, tokens, wordList, j);
      c.Add(wordLower, Occurrences(tokens, wordLower));
      j := j + 1;
    }
    assert wordList[..j] == wordList;
  }

  /** The outer loop: `for post in posts`, tokenizing each title. */
  method CountPageInto(c: Counter, posts: seq<Child>, wordList: seq<string>)
    requires c.Valid()
    modifies c
    ensures c.Valid()
    ensures c.items == CountTitles(old(c.items), TitlesOf(posts), wordList)
  {
    ghost var start := c.items;
    ghost var titles := TitlesOf(posts);
    var i := 0;
    while i < |posts|
      invariant 0 <= i <= |posts|
      invariant c.Valid()
      invariant c.items == CountTitles(start, titles[..i], wordList)
    {
      var tokens := Tokens(TitleOf(posts[i]));
      CountTitlesStep(start, titles, wordList, i);
      CountTitleInto(c, tokens, wordList);
      i := i + 1;
    }
    assert titles[..i] == titles;
  }

  /** `count_words(subreddit, word_list, counts, after)`. A null `counts` is
      Python's None. The result is what the call prints: the report when every
      page was fetched with status 200, nothing otherwise. A caller's Counter
      keeps what was added to it, up to the failing page. */
  method CountWords(server: Server, wordList: seq<string>, counts: Counter?, after: Option<string>)
    returns (out: seq<string>)
    requires server.Valid() && Ends(server.Remaining())
    requires counts != null ==> counts.Valid()
    modifies server, counts
    decreases |server.responses| - server.next
    ensures server.Valid()
    ensures server.next == old(server.next) + Steps(old(server.Remaining()))
    ensures server.sent == old(server.sent) + Cursors(old(server.Remaining()), after)
    ensures counts != null ==> counts.Valid()
    ensures counts != null ==> counts.items == CountWalk(old(counts.items), old(server.Remaining()), wordList)
    ensures out == if Succeeds(old(server.Remaining())) then
      Report(CountWalk(if counts == null then [] else old(counts.items), old(server.Remaining()), wordList))
    else []
  {
    ghost var rs := server.Remaining();
    ghost var sent0 := server.sent;
    var c := counts;
    if c == null {
      c := new Counter();
    }
    var response := server.Get(Sent(after));
    assert response == rs[0];
    if response.status == 200 {
      CountPageInto(c, Children(response), wordList);
      var next := After(response);
      if Truthy(next) {
        assert server.Remaining() == rs[1..];
        out := CountWords(server, wordList, c, next);
        assert Cursors(rs, after) == [Sent(after)] + Cursors(rs[1..], next);
        AppendAssoc(sent0, [Sent(after)], Cursors(rs[1..], next));
      } else {
        var sortedCounts := SortByKey(c.items);
        out := PrintReport(sortedCounts);
      }
    } else {
      out := [];
    }
  }
}

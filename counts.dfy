/** `collections.Counter` as `count_words` uses it: a dictionary from keyword
    to count, kept in insertion order, where a missing key reads as 0 and
    `counts[k] += n` inserts `k` at the end the first time it is written. */
module Counts {

  /** One `(key, count)` item of `counts.items()`. */
  type Entry = (string, int)

  predicate KeysUnique(items: seq<Entry>)
  {
    forall i, j :: 0 <= i < j < |items| ==> items[i].0 != items[j].0
  }

  function Keys(items: seq<Entry>): set<string>
  {
    if items == [] then {} else {items[0].0} + Keys(items[1..])
  }

  /** `counts[k]`: the count stored for `k`, or 0 when `k` is absent. */
  function Lookup(items: seq<Entry>, k: string): int
  {
    if items == [] then 0
    else if items[0].0 == k then items[0].1
    else Lookup(items[1..], k)
  }

  lemma {:induction false} KeysIndex(items: seq<Entry>, i: nat)
    requires i < |items|
    ensures items[i].0 in Keys(items)
  {
    if i > 0 {
      KeysIndex(items[1..], i - 1);
    }
  }

  lemma {:induction false} AbsentKey(items: seq<Entry>, k: string)
    requires k !in Keys(items)
    ensures Lookup(items, k) == 0
  {
    if items != [] {
      AbsentKey(items[1..], k);
    }
  }

  /** `counts[k] += n`: the stored count of `k` rises by `n`, every other
      count is unchanged, and `k` becomes a key (appended if it was new). */
  function Bump(items: seq<Entry>, k: string, n: int): (r: seq<Entry>)
    ensures forall j :: Lookup(r, j) == Lookup(items, j) + (if j == k then n else 0)
    ensures Keys(r) == Keys(items) + {k}
    ensures KeysUnique(items) ==> KeysUnique(r)
    ensures k in Keys(items) ==> |r| == |items|
    ensures k !in Keys(items) ==> r == items + [(k, n)]
  {
    if items == [] then
      assert Keys([(k, n)]) == {k};
      [(k, n)]
    else if items[0].0 == k then
      assert Keys(items) == {k} + Keys(items[1..]);
      assert ([(k, items[0].1 + n)] + items[1..])[1..] == items[1..];
      assert KeysUnique(items) ==> KeysUnique([(k, items[0].1 + n)] + items[1..]) by {
        if KeysUnique(items) {
          var r := [(k, items[0].1 + n)] + items[1..];
          forall i, j | 0 <= i < j < |r| ensures r[i].0 != r[j].0 {
            assert r[i].0 == items[i].0 && r[j].0 == items[j].0;
          }
        }
      }
      [(k, items[0].1 + n)] + items[1..]
    else
      var rest := Bump(items[1..], k, n);
      var r := [items[0]] + rest;
      assert r[1..] == rest;
      assert KeysUnique(items) ==> KeysUnique(r) by {
        if KeysUnique(items) {
          forall j | 0 <= j < |items[1..]| ensures items[1..][j].0 != items[0].0 {
            assert items[1..][j] == items[j + 1];
          }
          NotAKey(items[1..], items[0].0);
          assert items[0].0 !in Keys(rest);
          UniqueTail(items);
          ConsUnique(items[0], rest);
        }
      }
      assert k !in Keys(items) ==> r == items + [(k, n)] by {
        if k !in Keys(items) {
          assert items == [items[0]] + items[1..];
        }
      }
      r
  }

  lemma ConsUnique(x: Entry, rest: seq<Entry>)
    requires KeysUnique(rest) && x.0 !in Keys(rest)
    ensures KeysUnique([x] + rest)
  {
    var r := [x] + rest;
    forall i, j | 0 <= i < j < |r| ensures r[i].0 != r[j].0 {
      assert r[j] == rest[j - 1];
      if i == 0 {
        KeysIndex(rest, j - 1);
      } else {
        assert r[i] == rest[i - 1];
      }
    }
  }

  lemma UniqueTail(items: seq<Entry>)
    requires KeysUnique(items) && items != []
    ensures KeysUnique(items[1..])
  {
    forall a, b | 0 <= a < b < |items[1..]| ensures items[1..][a].0 != items[1..][b].0 {
      assert items[1..][a] == items[a + 1] && items[1..][b] == items[b + 1];
    }
  }

  lemma {:induction false} NotAKey(items: seq<Entry>, k: string)
    requires forall j :: 0 <= j < |items| ==> items[j].0 != k
    ensures k !in Keys(items)
  {
    if items != [] {
      NotAKey(items[1..], k);
    }
  }

  /** With unique keys an item's count is what `counts[key]` reads. */
  lemma {:induction false} LookupAt(items: seq<Entry>, i: nat)
    requires KeysUnique(items) && i < |items|
    ensures Lookup(items, items[i].0) == items[i].1
  {
    if i > 0 {
      assert items[0].0 != items[i].0;
      UniqueTail(items);
      LookupAt(items[1..], i - 1);
    }
  }

  /** With unique keys no item occurs twice. */
  lemma {:induction false} NoRepeatedItem(items: seq<Entry>, e: Entry)
    requires KeysUnique(items)
    ensures multiset(items)[e] <= 1
  {
    if items != [] {
      assert items == [items[0]] + items[1..];
      UniqueTail(items);
      NoRepeatedItem(items[1..], e);
      if items[0] == e {
        forall j | 0 <= j < |items[1..]| ensures items[1..][j] != e {
          assert items[1..][j] == items[j + 1];
        }
        assert e !in multiset(items[1..]);
      }
    }
  }

  /** The `Counter` object threaded through the recursion of `count_words`. */
  class Counter {
    var items: seq<Entry>

    ghost predicate Valid()
      reads this
    {
      KeysUnique(items)
    }

    /** `Counter()`: empty. */
    constructor ()
      ensures Valid() && items == []
    {
      items := [];
    }

    /** `counts[k] += n` */
    method Add(k: string, n: int)
      requires Valid()
      modifies this
      ensures Valid()
      ensures items == Bump(old(items), k, n)
    {
      items := Bump(items, k, n);
    }
  }
}

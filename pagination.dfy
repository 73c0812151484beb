/** `recurse`: the cursor walk over the hot listing that extends `hot_list`
    in place with every title, page by page, and returns that same list, or
    None as soon as a page comes back with a status other than 200. */
module Pagination {
  import opened Listing
  import opened Seqs

  /** The walk over `rs` stops within `rs`: some response is a last page. */
  predicate Ends(rs: seq<Response>)
    decreases |rs|
  {
    |rs| > 0 && (LastPage(rs[0]) || Ends(rs[1..]))
  }

  /** How many requests the walk over `rs` makes. */
  function Steps(rs: seq<Response>): (n: nat)
    requires Ends(rs)
    ensures 1 <= n <= |rs|
    decreases |rs|
  {
    if LastPage(rs[0]) then 1 else 1 + Steps(rs[1..])
  }

  /** Whether the walk over `rs` returns the list (true) or None (false). */
  predicate Succeeds(rs: seq<Response>)
    requires Ends(rs)
    decreases |rs|
  {
    Ok(rs[0]) && (!Truthy(After(rs[0])) || Succeeds(rs[1..]))
  }

  /** The titles the walk over `rs` appends to `hot_list`, including those of
      the pages fetched before a failure. */
  function Collected(rs: seq<Response>): seq<string>
    requires Ends(rs)
    decreases |rs|
  {
    if !Ok(rs[0]) then []
    else if !Truthy(After(rs[0])) then PageTitles(rs[0])
    else PageTitles(rs[0]) + Collected(rs[1..])
  }

  /** The cursors the walk's requests carry, when the first call got `after`. */
  function Cursors(rs: seq<Response>, after: Option<string>): seq<Option<string>>
    requires Ends(rs)
    decreases |rs|
  {
    [Sent(after)] + if LastPage(rs[0]) then [] else Cursors(rs[1..], After(rs[0]))
  }

  /** Reference definition: the titles of the first `n` pages, concatenated. */
  function TitlesOfPages(rs: seq<Response>, n: nat): seq<string>
    requires n <= |rs|
  {
    if n == 0 then [] else PageTitles(rs[0]) + TitlesOfPages(rs[1..], n - 1)
  }

  /** Reference definition: the number of children on the first `n` pages. */
  function ChildCount(rs: seq<Response>, n: nat): nat
    requires n <= |rs|
  {
    if n == 0 then 0 else |Children(rs[0])| + ChildCount(rs[1..], n - 1)
  }

  /** A Python list object, extended in place and shared by reference. */
  class TitleList {
    var items: seq<string>

    constructor ()
      ensures items == []
    {
      items := [];
    }

    /** `list.extend`. */
    method Extend(ts: seq<string>)
      modifies this
      ensures items == old(items) + ts
    {
      items := items + ts;
    }
  }

  /** `recurse(subreddit, hot_list, after)`. A null result is Python's None;
      otherwise the result is the very object `hot_list`. */
  method Recurse(server: Server, hotList: TitleList, after: Option<string>) returns (r: TitleList?)
    requires server.Valid() && Ends(server.Remaining())
    modifies server, hotList
    decreases |server.responses| - server.next
    ensures server.Valid()
    ensures server.next == old(server.next) + Steps(old(server.Remaining()))
    ensures server.sent == old(server.sent) + Cursors(old(server.Remaining()), after)
    ensures hotList.items == old(hotList.items) + Collected(old(server.Remaining()))
    ensures r == null <==> !Succeeds(old(server.Remaining()))
    ensures r != null ==> r == hotList
  {
    ghost var rs := server.Remaining();
    ghost var sent0, items0 := server.sent, hotList.items;
    var response := server.Get(Sent(after));
    assert response == rs[0];
    if response.status == 200 {
      hotList.Extend(PageTitles(response));
      var next := After(response);
      if Truthy(next) {
        assert server.Remaining() == rs[1..];
        ghost var sent1, items1 := server.sent, hotList.items;
        r := Recurse(server, hotList, next);
        assert Cursors(rs, after) == [Sent(after)] + Cursors(rs[1..], next);
        AppendAssoc(sent0, [Sent(after)], Cursors(rs[1..], next));
        assert Collected(rs) == PageTitles(rs[0]) + Collected(rs[1..]);
        AppendAssoc(items0, PageTitles(rs[0]), Collected(rs[1..]));
        assert Steps(rs) == 1 + Steps(rs[1..]);
        assert Succeeds(rs) == Succeeds(rs[1..]);
      } else {
        r := hotList;
      }
    } else {
      r := null;
    }
  }

  /** The function object `recurse` itself: its default `hot_list=[]` is
      evaluated once, when the function is defined, and is the same list on
      every call that omits the argument. */
  class RecurseFunction {
    const defaultHotList: TitleList

    constructor ()
      ensures fresh(defaultHotList) && defaultHotList.items == []
    {
      defaultHotList := new TitleList();
    }

    /** `recurse(subreddit)`: a top-level call with the default list. */
    method Call(server: Server) returns (r: TitleList?)
      requires server.Valid() && Ends(server.Remaining())
      modifies server, defaultHotList
      ensures server.Valid()
      ensures server.next == old(server.next) + Steps(old(server.Remaining()))
      ensures server.sent == old(server.sent) + Cursors(old(server.Remaining()), None)
      ensures defaultHotList.items == old(defaultHotList.items) + Collected(old(server.Remaining()))
      ensures r == null <==> !Succeeds(old(server.Remaining()))
      ensures r != null ==> r == defaultHotList
    {
      r := Recurse(server, defaultHotList, None);
    }
  }

  /** Two top-level calls against two listings: the second call's result is
      the same list object as the first's and holds the first call's titles
      followed by its own. */
  method TwoTopLevelCalls(f: RecurseFunction, s1: Server, s2: Server) returns (r1: TitleList?, r2: TitleList?)
    requires s1 != s2
    requires f.defaultHotList.items == []
    requires s1.Valid() && Ends(s1.Remaining()) && s2.Valid() && Ends(s2.Remaining())
    modifies s1, s2, f.defaultHotList
    ensures r1 != null && r2 != null ==> r1 == r2
    ensures r2 != null ==>
      r2.items == Collected(old(s1.Remaining())) + Collected(old(s2.Remaining()))
  {
    ghost var c1, c2 := Collected(s1.Remaining()), Collected(s2.Remaining());
    r1 := f.Call(s1);
    assert f.defaultHotList.items == [] + c1 == c1;
    assert s2.Remaining() == old(s2.Remaining());
    r2 := f.Call(s2);
  }

  /** The entry point the docstring describes ("default is an empty list"):
      a top-level call gets a list of its own, so it returns only its own titles. */
  method RecurseFresh(server: Server) returns (r: TitleList?)
    requires server.Valid() && Ends(server.Remaining())
    modifies server
    ensures server.Valid()
    ensures server.next == old(server.next) + Steps(old(server.Remaining()))
    ensures server.sent == old(server.sent) + Cursors(old(server.Remaining()), None)
    ensures r == null <==> !Succeeds(old(server.Remaining()))
    ensures r != null ==> fresh(r) && r.items == Collected(old(server.Remaining()))
  {
    var hotList := new TitleList();
    r := Recurse(server, hotList, None);
  }

  /** With a fresh list per call, a second top-level call returns only its own titles. */
  method TwoFreshCalls(s1: Server, s2: Server) returns (r1: TitleList?, r2: TitleList?)
    requires s1 != s2
    requires s1.Valid() && Ends(s1.Remaining()) && s2.Valid() && Ends(s2.Remaining())
    modifies s1, s2
    ensures r1 != null && r2 != null ==> r1 != r2
    ensures r1 != null ==> r1.items == Collected(old(s1.Remaining()))
    ensures r2 != null ==> r2.items == Collected(old(s2.Remaining()))
  {
    r1 := RecurseFresh(s1);
    r2 := RecurseFresh(s2);
  }

  // ---------------------------------------------------------------------------
  // Properties of the walk

  /** The walk makes requests up to and including the first last page, and no further. */
  lemma {:induction false} StepsReachFirstLastPage(rs: seq<Response>)
    requires Ends(rs)
    ensures 1 <= Steps(rs) <= |rs|
    ensures LastPage(rs[Steps(rs) - 1])
    ensures forall i :: 0 <= i < Steps(rs) - 1 ==> !LastPage(rs[i])
    decreases |rs|
  {
    if !LastPage(rs[0]) {
      StepsReachFirstLastPage(rs[1..]);
    }
  }

  /** The walk returns the list exactly when every page it requests has status 200. */
  lemma {:induction false} SucceedsIffAllOk(rs: seq<Response>)
    requires Ends(rs)
    ensures Succeeds(rs) <==> (forall i :: 0 <= i < Steps(rs) ==> Ok(rs[i]))
    ensures Succeeds(rs) <==> Ok(rs[Steps(rs) - 1])
    decreases |rs|
  {
    StepsReachFirstLastPage(rs);
    if !LastPage(rs[0]) {
      SucceedsIffAllOk(rs[1..]);
      assert forall i :: 1 <= i < Steps(rs) ==> rs[i] == rs[1..][i - 1];
    }
  }

  /** Cursor threading: the first request carries the caller's cursor (none at
      top level), and every later request carries the previous page's truthy `after`. */
  lemma {:induction false} CursorsThread(rs: seq<Response>, after: Option<string>)
    requires Ends(rs)
    ensures |Cursors(rs, after)| == Steps(rs)
    ensures Cursors(rs, after)[0] == Sent(after)
    ensures forall i :: 1 <= i < Steps(rs) ==>
      Truthy(After(rs[i - 1])) && Cursors(rs, after)[i] == After(rs[i - 1])
    decreases |rs|
  {
    if !LastPage(rs[0]) {
      ghost var tail := Cursors(rs[1..], After(rs[0]));
      CursorsThread(rs[1..], After(rs[0]));
      assert Cursors(rs, after) == [Sent(after)] + tail;
      forall i | 1 <= i < Steps(rs)
        ensures Truthy(After(rs[i - 1])) && Cursors(rs, after)[i] == After(rs[i - 1])
      {
        assert Cursors(rs, after)[i] == tail[i - 1];
        if i == 1 {
          assert !LastPage(rs[0]);
          assert Truthy(After(rs[0]));
          assert tail[0] == Sent(After(rs[0]));
        } else {
          assert i - 1 < Steps(rs[1..]);
          assert rs[1..][i - 2] == rs[i - 1];
        }
      }
    }
  }

  /** On success the titles appended are those of every requested page, in request order. */
  lemma {:induction false} CollectedOnSuccess(rs: seq<Response>)
    requires Ends(rs) && Succeeds(rs)
    ensures Collected(rs) == TitlesOfPages(rs, Steps(rs))
    decreases |rs|
  {
    if !Truthy(After(rs[0])) {
      assert TitlesOfPages(rs[1..], 0) == [];
    } else {
      CollectedOnSuccess(rs[1..]);
    }
  }

  /** One step of a walk that fails later: the first page was fine and had a cursor. */
  lemma FailsLater(rs: seq<Response>)
    requires Ends(rs) && !Succeeds(rs) && Ok(rs[0])
    ensures Truthy(After(rs[0])) && Ends(rs[1..]) && !Succeeds(rs[1..])
    ensures Steps(rs) == 1 + Steps(rs[1..])
    ensures Collected(rs) == PageTitles(rs[0]) + Collected(rs[1..])
  {
  }

  /** On failure the titles of every page before the failing one stay appended,
      in request order. */
  lemma {:induction false} CollectedOnFailure(rs: seq<Response>)
    requires Ends(rs) && !Succeeds(rs)
    ensures Collected(rs) == TitlesOfPages(rs, Steps(rs) - 1)
    decreases |rs|
  {
    if Ok(rs[0]) {
      FailsLater(rs);
      CollectedOnFailure(rs[1..]);
    } else {
      assert Steps(rs) == 1 && Collected(rs) == [];
    }
  }

  /** Each page contributes one title per child. */
  lemma {:induction false} TitlesOfPagesLength(rs: seq<Response>, n: nat)
    requires n <= |rs|
    ensures |TitlesOfPages(rs, n)| == ChildCount(rs, n)
  {
    if n > 0 {
      TitlesOfPagesLength(rs[1..], n - 1);
    }
  }

  /** On success the list grows by exactly the number of children of all fetched pages. */
  lemma SuccessLength(rs: seq<Response>)
    requires Ends(rs) && Succeeds(rs)
    ensures |Collected(rs)| == ChildCount(rs, Steps(rs))
  {
    CollectedOnSuccess(rs);
    TitlesOfPagesLength(rs, Steps(rs));
  }
}

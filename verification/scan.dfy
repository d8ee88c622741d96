/** The windows the rebuild fetches when rows are inserted into the store while
    it runs, and what the rebuild is guaranteed to add in that case. */
module Scan {
  import opened Rows
  import opened KeyOrder
  import opened Fetch
  import opened Pagination

  /** The windows fetched from `current` onwards, starting at cursor `lastId`,
      when `growth[0]` joins the store after the first of them, `growth[1]`
      after the second, and so on; once `growth` is used up the store stays
      as it is. The scan ends at the first empty window. */
  function ScanWindows(current: seq<Row>, growth: seq<seq<Row>>, lastId: Option<nat>): (ws: seq<seq<Row>>)
    ensures forall i :: 0 <= i < |ws| ==> 0 < |ws[i]| <= PageSize
    decreases |growth|, |Candidates(current, lastId)|
  {
    var w := FetchNext(current, lastId);
    if w == [] then []
    else if growth == [] then
      CandidatesShrink(current, lastId);
      var rest := ScanWindows(current, [], NextCursor(w));
      BoundedCons(w, rest);
      [w] + rest
    else
      var rest := ScanWindows(current + growth[0], growth[1..], NextCursor(w));
      BoundedCons(w, rest);
      [w] + rest
  }

  /** The store after the first `k` insertions. */
  function StoreAfter(store: seq<Row>, growth: seq<seq<Row>>, k: nat): (s: seq<Row>)
    requires k <= |growth|
    ensures |s| == |store| + |Flatten(growth[..k])|
  {
    store + Flatten(growth[..k])
  }

  lemma GrowthStep(store: seq<Row>, growth: seq<seq<Row>>, k: nat)
    requires k < |growth|
    ensures StoreAfter(store, growth, k + 1) == StoreAfter(store, growth, k) + growth[k]
  {
    assert growth[..k + 1] == growth[..k] + [growth[k]];
    FlattenSnoc(growth[..k], growth[k]);
  }

  /** What the rebuild loop has done after `commits` windows, relative to the
      whole scan: `k` insertions have happened, `windows` are the windows
      fetched so far, `added` their rows and `cursors` the cursors used. */
  ghost predicate ScanState(store: seq<Row>, growth: seq<seq<Row>>, k: nat, current: seq<Row>, lastId: Option<nat>,
                            windows: seq<seq<Row>>, added: seq<Row>, cursors: seq<Option<nat>>, commits: nat)
  {
    k <= |growth| && current == StoreAfter(store, growth, k) &&
    windows + ScanWindows(current, growth[k..], lastId) == ScanWindows(store, growth, None) &&
    (forall i :: 0 <= i < |windows| ==> windows[i] != []) &&
    Flatten(windows) == added && |windows| == commits &&
    cursors == CursorsOf(None, windows) && lastId == cursors[|cursors| - 1]
  }

  lemma ScanStart(store: seq<Row>, growth: seq<seq<Row>>)
    ensures ScanState(store, growth, 0, store, None, [], [], [None], 0)
  {
    assert growth[..0] == [] && growth[0..] == growth;
  }

  /** One non-empty window moves the loop one step along the scan, and the
      windows still to come become one fewer. */
  lemma ScanAdvance(store: seq<Row>, growth: seq<seq<Row>>, k: nat, current: seq<Row>, lastId: Option<nat>,
                    windows: seq<seq<Row>>, added: seq<Row>, cursors: seq<Option<nat>>, commits: nat)
    requires ScanState(store, growth, k, current, lastId, windows, added, cursors, commits)
    requires FetchNext(current, lastId) != []
    ensures ScanState(store, growth, Min(k + 1, |growth|), NextStore(current, growth[k..]),
                      NextCursor(FetchNext(current, lastId)), windows + [FetchNext(current, lastId)],
                      added + FetchNext(current, lastId), cursors + [NextCursor(FetchNext(current, lastId))],
                      commits + 1)
    ensures |ScanWindows(NextStore(current, growth[k..]), growth[Min(k + 1, |growth|)..],
                         NextCursor(FetchNext(current, lastId)))| <
            |ScanWindows(current, growth[k..], lastId)|
  {
    var w := FetchNext(current, lastId);
    var k' := Min(k + 1, |growth|);
    var current' := NextStore(current, growth[k..]);
    var next := NextCursor(w);
    var rest := ScanWindows(current', growth[k'..], next);
    ScanUnfold(current, growth[k..], lastId);
    GrowthPosition(store, growth, k);
    assert ScanWindows(current, growth[k..], lastId) == [w] + rest;
    SnocThenAppend(windows, w, rest);
    CursorsOfSnoc(None, windows, w);
    FlattenSnoc(windows, w);
    NonEmptySnoc(windows, w);
    assert (cursors + [next])[|cursors + [next]| - 1] == next;
  }

  lemma NonEmptySnoc<T>(ws: seq<seq<T>>, w: seq<T>)
    requires forall i :: 0 <= i < |ws| ==> ws[i] != []
    requires w != []
    ensures forall i :: 0 <= i < |ws + [w]| ==> (ws + [w])[i] != []
  {
  }

  /** After the insertion that follows a window, `Min(k + 1, |growth|)`
      insertions have happened. */
  lemma GrowthPosition(store: seq<Row>, growth: seq<seq<Row>>, k: nat)
    requires k <= |growth|
    ensures NextGrowth(growth[k..]) == growth[Min(k + 1, |growth|)..]
    ensures NextStore(StoreAfter(store, growth, k), growth[k..]) == StoreAfter(store, growth, Min(k + 1, |growth|))
  {
    if k < |growth| {
      GrowthStep(store, growth, k);
      assert growth[k..][0] == growth[k] && growth[k..][1..] == growth[k + 1..];
    }
  }

  /** When the loop stops, the windows it fetched are the whole scan. */
  lemma ScanDone(store: seq<Row>, growth: seq<seq<Row>>, k: nat, current: seq<Row>, lastId: Option<nat>,
                 windows: seq<seq<Row>>, added: seq<Row>, cursors: seq<Option<nat>>, commits: nat)
    requires ScanState(store, growth, k, current, lastId, windows, added, cursors, commits)
    requires FetchNext(current, lastId) == []
    ensures added == Flatten(ScanWindows(store, growth, None))
    ensures commits == |ScanWindows(store, growth, None)|
    ensures cursors == CursorsOf(None, ScanWindows(store, growth, None))
  {
    assert ScanWindows(current, growth[k..], lastId) == [];
    assert windows + [] == windows;
  }

  /** Without insertions the scan is the plain keyset scan of the store. */
  lemma {:induction false} ScanWithoutGrowth(current: seq<Row>, growth: seq<seq<Row>>, lastId: Option<nat>)
    requires forall i :: 0 <= i < |growth| ==> growth[i] == []
    ensures ScanWindows(current, growth, lastId) == Windows(current, lastId)
    decreases |growth|, |Candidates(current, lastId)|
  {
    var w := FetchNext(current, lastId);
    if w != [] {
      CandidatesShrink(current, lastId);
      if growth == [] {
        ScanWithoutGrowth(current, [], NextCursor(w));
      } else {
        assert current + growth[0] == current;
        ScanWithoutGrowth(current, growth[1..], NextCursor(w));
      }
    }
  }

  lemma DistinctPrefix(a: seq<Row>, b: seq<Row>)
    requires DistinctIds(a + b)
    ensures DistinctIds(a)
  {
    forall i, j | 0 <= i < j < |a| ensures a[i].id != a[j].id {
      assert (a + b)[i] == a[i] && (a + b)[j] == a[j];
    }
  }

  /** One window of the scan, on whatever the store holds at that fetch: the
      rows added stay strictly ascending, and no row of the original store at
      or below the new cursor is missed. */
  lemma WindowStep(store: seq<Row>, current: seq<Row>, lastId: Option<nat>, added: seq<Row>)
    requires DistinctIds(current)
    requires forall r :: r in store ==> r in current
    requires FetchNext(current, lastId) != []
    requires Ascending(added)
    requires lastId.None? ==> added == []
    requires lastId.Some? ==> added != [] && lastId.value == added[|added| - 1].id
    requires forall r :: r in store && lastId.Some? && r.id <= lastId.value ==> r in added
    ensures Ascending(added + FetchNext(current, lastId))
    ensures forall r :: r in store && r.id <= NextCursor(FetchNext(current, lastId)).value ==>
              r in added + FetchNext(current, lastId)
  {
    var w := FetchNext(current, lastId);
    FetchNextAscending(current, lastId);
    assert w[0] in w;
    AscendingAppend(added, w);
    forall r | r in store && r.id <= w[|w| - 1].id ensures r in added + w {
      if r !in added {
        assert r in Candidates(current, lastId);
      }
    }
  }

  /** Two strictly ascending runs, the second starting above the end of the
      first, make one strictly ascending run. */
  lemma AscendingAppend(a: seq<Row>, b: seq<Row>)
    requires Ascending(a) && Ascending(b)
    requires a != [] && b != [] ==> a[|a| - 1].id < b[0].id
    ensures Ascending(a + b)
  {
    var all := a + b;
    forall i, j | 0 <= i < j < |all| ensures all[i].id < all[j].id {
      if i < |a| && j >= |a| {
        assert all[i].id <= a[|a| - 1].id;
        assert b[0].id <= all[j].id;
      }
    }
  }

  /** The store at the next fetch, and the insertions still to come. */
  function NextStore(current: seq<Row>, growth: seq<seq<Row>>): (s: seq<Row>)
    ensures forall r :: r in current ==> r in s
  {
    if growth == [] then current else current + growth[0]
  }

  function NextGrowth(growth: seq<seq<Row>>): (g: seq<seq<Row>>)
    ensures |g| == if growth == [] then 0 else |growth| - 1
  {
    if growth == [] then [] else growth[1..]
  }

  /** Unfolds one non-empty window of a scan. */
  lemma ScanUnfold(current: seq<Row>, growth: seq<seq<Row>>, lastId: Option<nat>)
    requires FetchNext(current, lastId) != []
    ensures ScanWindows(current, growth, lastId) ==
              [FetchNext(current, lastId)] +
              ScanWindows(NextStore(current, growth), NextGrowth(growth), NextCursor(FetchNext(current, lastId)))
  {
    if growth == [] {
      assert NextStore(current, growth) == current && NextGrowth(growth) == [];
    } else {
      assert NextStore(current, growth) == current + growth[0] && NextGrowth(growth) == growth[1..];
    }
  }

  /** The rows present at the end are the same whichever step the scan is at. */
  lemma GrowthUnfold(current: seq<Row>, growth: seq<seq<Row>>)
    ensures NextStore(current, growth) + Flatten(NextGrowth(growth)) == current + Flatten(growth)
  {
    if growth == [] {
      assert current + Flatten([]) == current;
    } else {
      assert Flatten(growth) == growth[0] + Flatten(growth[1..]);
    }
  }

  /** The scan resumed after the rows `done` (whose last id is the cursor):
      together with what follows, the rows added are strictly ascending, every
      row of `store` is among them, and each comes from the store as it
      stands at the end. */
  lemma {:induction false} ScanFromHere(store: seq<Row>, done: seq<Row>, current: seq<Row>,
                                        growth: seq<seq<Row>>, lastId: Option<nat>)
    requires Resumable(store, done, current, growth, lastId)
    ensures Ascending(done + Flatten(ScanWindows(current, growth, lastId)))
    ensures forall r :: r in store ==> r in done + Flatten(ScanWindows(current, growth, lastId))
    ensures forall r :: r in done + Flatten(ScanWindows(current, growth, lastId)) ==> r in current + Flatten(growth)
    decreases |growth|, |Candidates(current, lastId)|
  {
    var w := FetchNext(current, lastId);
    if w == [] {
      ScanEnd(store, done, current, growth, lastId);
    } else {
      var next := NextCursor(w);
      ResumableStep(store, done, current, growth, lastId);
      ScanUnfold(current, growth, lastId);
      GrowthUnfold(current, growth);
      if growth == [] {
        CandidatesShrink(current, lastId);
      }
      ScanFromHere(store, done + w, NextStore(current, growth), NextGrowth(growth), next);
      AppendFlattenCons(done, w, ScanWindows(NextStore(current, growth), NextGrowth(growth), next));
    }
  }

  /** The state of a scan between two fetches: `done` are the rows added so
      far, `current` the store now, `growth` the insertions still to come. */
  ghost predicate Resumable(store: seq<Row>, done: seq<Row>, current: seq<Row>,
                            growth: seq<seq<Row>>, lastId: Option<nat>)
  {
    DistinctIds(current + Flatten(growth)) &&
    (forall r :: r in store ==> r in current) &&
    (forall r :: r in done ==> r in current) &&
    Ascending(done) &&
    (lastId.None? ==> done == []) &&
    (lastId.Some? ==> done != [] && lastId.value == done[|done| - 1].id) &&
    (forall r :: r in store && lastId.Some? && r.id <= lastId.value ==> r in done)
  }

  lemma ScanEnd(store: seq<Row>, done: seq<Row>, current: seq<Row>, growth: seq<seq<Row>>, lastId: Option<nat>)
    requires Resumable(store, done, current, growth, lastId)
    requires FetchNext(current, lastId) == []
    ensures ScanWindows(current, growth, lastId) == []
    ensures forall r :: r in store ==> r in done
  {
  }

  lemma ResumableStep(store: seq<Row>, done: seq<Row>, current: seq<Row>, growth: seq<seq<Row>>, lastId: Option<nat>)
    requires Resumable(store, done, current, growth, lastId)
    requires FetchNext(current, lastId) != []
    ensures Resumable(store, done + FetchNext(current, lastId), NextStore(current, growth), NextGrowth(growth),
                      NextCursor(FetchNext(current, lastId)))
  {
    var w := FetchNext(current, lastId);
    var done', current', next := done + w, NextStore(current, growth), NextCursor(w);
    DistinctPrefix(current, Flatten(growth));
    WindowStep(store, current, lastId, done);
    StoreStep(done, current, growth, lastId);
    assert forall r :: r in store ==> r in current';
    assert done' != [] && next.value == done'[|done'| - 1].id;
  }

  /** Across one fetch, ids stay distinct and the rows added so far stay in
      the store. */
  lemma StoreStep(done: seq<Row>, current: seq<Row>, growth: seq<seq<Row>>, lastId: Option<nat>)
    requires DistinctIds(current + Flatten(growth))
    requires forall r :: r in done ==> r in current
    requires FetchNext(current, lastId) != []
    ensures DistinctIds(NextStore(current, growth) + Flatten(NextGrowth(growth)))
    ensures forall r :: r in done + FetchNext(current, lastId) ==> r in NextStore(current, growth)
  {
    GrowthUnfold(current, growth);
  }

  lemma SnocThenAppend<T>(a: seq<T>, x: T, b: seq<T>)
    ensures (a + [x]) + b == a + ([x] + b)
  {
  }

  lemma AppendFlattenCons<T>(done: seq<T>, w: seq<T>, rest: seq<seq<T>>)
    ensures done + Flatten([w] + rest) == (done + w) + Flatten(rest)
  {
    assert ([w] + rest)[0] == w && ([w] + rest)[1..] == rest;
  }

  /** A rebuild during which rows are inserted still adds rows in strictly
      ascending id order, adds every row present when it started, and adds
      only rows that were present at some point. */
  lemma ScanCoversStore(store: seq<Row>, growth: seq<seq<Row>>)
    requires DistinctIds(store + Flatten(growth))
    ensures Ascending(Flatten(ScanWindows(store, growth, None)))
    ensures forall r :: r in store ==> r in Flatten(ScanWindows(store, growth, None))
    ensures forall r :: r in Flatten(ScanWindows(store, growth, None)) ==> r in store + Flatten(growth)
  {
    var all := Flatten(ScanWindows(store, growth, None));
    ScanFromHere(store, [], store, growth, None);
    assert [] + all == all;
  }

  /** Without insertions, the rebuild adds exactly the store in id order, in
      CeilDiv(N) windows. */
  lemma ScanOfUnchangedStore(store: seq<Row>, growth: seq<seq<Row>>)
    requires DistinctIds(store)
    requires forall i :: 0 <= i < |growth| ==> growth[i] == []
    ensures Flatten(ScanWindows(store, growth, None)) == SortById(store)
    ensures |Flatten(ScanWindows(store, growth, None))| == |store|
    ensures multiset(Flatten(ScanWindows(store, growth, None))) == multiset(store)
    ensures |ScanWindows(store, growth, None)| == CeilDiv(|store|)
    ensures CursorsOf(None, ScanWindows(store, growth, None)) == FetchCursors(store, None)
  {
    ScanWithoutGrowth(store, growth, None);
    WindowsCoverCandidates(store, None);
    WindowCount(store, None);
    assert Candidates(store, None) == store;
  }

  /** An empty store: one fetch, which comes back empty, and no window, whatever
      is inserted afterwards. */
  lemma EmptyStoreScan(growth: seq<seq<Row>>)
    ensures ScanWindows([], growth, None) == []
    ensures CursorsOf(None, ScanWindows([], growth, None)) == [None]
  {
    assert FetchNext([], None) == [];
  }

  /** The number of windows is not fixed when the run starts: a row inserted
      after the first window, with an id above every row of a one-page store,
      is fetched in a second window and added. */
  lemma LateRowExtendsRun(store: seq<Row>, x: Row)
    requires DistinctIds(store) && |store| == PageSize
    requires forall r :: r in store ==> r.id < x.id
    ensures CeilDiv(|store|) == 1
    ensures |ScanWindows(store, [[x]], None)| == 2
    ensures x in Flatten(ScanWindows(store, [[x]], None))
  {
    assert CeilDiv(1000) == 1999 / 1000 == 1;
    var w, w' := TwoWindows(store, x);
    FlattenSnoc([w], w');
  }

  lemma TwoWindows(store: seq<Row>, x: Row) returns (w: seq<Row>, w': seq<Row>)
    requires DistinctIds(store) && |store| == PageSize
    requires forall r :: r in store ==> r.id < x.id
    ensures ScanWindows(store, [[x]], None) == [w] + [w']
    ensures x in w'
  {
    w := FetchNext(store, None);
    OnePageWindow(store);
    var c := NextCursor(w).value;
    var store' := store + [x];
    ScanUnfold(store, [[x]], None);
    assert NextStore(store, [[x]]) == store' && NextGrowth([[x]]) == [];
    forall r | r in store' ensures r == x || r.id <= c {
    }
    LastWindow(store', c, x);
    w' := FetchNext(store', Some(c));
  }

  /** A store of exactly one page comes back whole from the first fetch. */
  lemma OnePageWindow(store: seq<Row>)
    requires DistinctIds(store) && |store| == PageSize
    ensures FetchNext(store, None) != []
    ensures forall r :: r in store ==> r.id <= NextCursor(FetchNext(store, None)).value
  {
    var w := FetchNext(store, None);
    assert Candidates(store, None) == store;
    WindowIsPrefix(store, None);
    var s := SortById(store);
    assert w == s;
    SortAscending(store);
    forall r | r in store ensures r.id <= s[|s| - 1].id {
      var i :| 0 <= i < |s| && s[i] == r;
      if i < |s| - 1 {
        assert s[i].id < s[|s| - 1].id;
      }
    }
  }

  /** Once only `x` lies above the cursor, the scan has one window left, and
      it holds `x`. */
  lemma LastWindow(store: seq<Row>, c: nat, x: Row)
    requires x in store && x.id > c
    requires forall r :: r in store ==> r == x || r.id <= c
    ensures ScanWindows(store, [], Some(c)) == [FetchNext(store, Some(c))]
    ensures x in FetchNext(store, Some(c))
  {
    assert x in Candidates(store, Some(c));
    var w := FetchNext(store, Some(c));
    assert 0 < |w|;
    var last := w[|w| - 1];
    assert last in w;
    assert last == x;
    ScanUnfold(store, [], Some(c));
    assert NextStore(store, []) == store && NextGrowth([]) == [];
    forall i | 0 <= i < |store| ensures store[i].id <= x.id {
      assert store[i] in store;
    }
    AfterAllBelow(store, x.id);
    assert FetchNext(store, Some(x.id)) == [];
  }
}

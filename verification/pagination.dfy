/** The windows and cursors the reindex loop goes through when the store does
    not change during the run, and what they add up to. */
module Pagination {
  import opened Rows
  import opened KeyOrder
  import opened Fetch

  function Flatten<T>(ws: seq<seq<T>>): (all: seq<T>)
    ensures ws == [] ==> all == []
  {
    if ws == [] then [] else ws[0] + Flatten(ws[1..])
  }

  lemma {:induction false} FlattenConcat<T>(a: seq<seq<T>>, b: seq<seq<T>>)
    ensures Flatten(a + b) == Flatten(a) + Flatten(b)
  {
    if a == [] {
      assert a + b == b;
    } else {
      assert (a + b)[0] == a[0] && (a + b)[1..] == a[1..] + b;
      FlattenConcat(a[1..], b);
    }
  }

  lemma FlattenSnoc<T>(ws: seq<seq<T>>, w: seq<T>)
    ensures Flatten(ws + [w]) == Flatten(ws) + w
  {
    FlattenConcat(ws, [w]);
    assert Flatten([w]) == w + Flatten([w][1..]);
    assert [w][1..] == [];
  }

  function Min(a: int, b: int): int {
    if a <= b then a else b
  }

  /** Number of windows of at most `PageSize` rows needed for `n` rows. */
  function CeilDiv(n: nat): (c: nat)
    ensures n == 0 ==> c == 0
    ensures 0 < n <= PageSize ==> c == 1
  {
    (n + PageSize - 1) / PageSize
  }

  /** Beyond one page, a full window takes one page off the count. */
  lemma CeilDivStep(n: nat)
    requires n > PageSize
    ensures CeilDiv(n) == 1 + CeilDiv(n - PageSize)
  {
  }

  /** The non-empty windows fetched, in order, starting from cursor `lastId`. */
  function Windows(store: seq<Row>, lastId: Option<nat>): (ws: seq<seq<Row>>)
    ensures forall i :: 0 <= i < |ws| ==> 0 < |ws[i]| <= PageSize
    decreases |Candidates(store, lastId)|
  {
    var w := FetchNext(store, lastId);
    if w == [] then []
    else
      CandidatesShrink(store, lastId);
      var rest := Windows(store, NextCursor(w));
      BoundedCons(w, rest);
      [w] + rest
  }

  lemma BoundedCons(w: seq<Row>, rest: seq<seq<Row>>)
    requires 0 < |w| <= PageSize
    requires forall i :: 0 <= i < |rest| ==> 0 < |rest[i]| <= PageSize
    ensures forall i :: 0 <= i < |[w] + rest| ==> 0 < |([w] + rest)[i]| <= PageSize
  {
  }

  /** The cursors of a scan that starts at `first` and fetches the windows
      `ws`: the first cursor, then the last id of each window. */
  function CursorsOf(first: Option<nat>, ws: seq<seq<Row>>): (cs: seq<Option<nat>>)
    requires forall i :: 0 <= i < |ws| ==> ws[i] != []
    ensures |cs| == |ws| + 1 && cs[0] == first
    ensures forall i :: 0 <= i < |ws| ==> cs[i + 1] == NextCursor(ws[i])
    decreases ws
  {
    if ws == [] then [first] else [first] + CursorsOf(NextCursor(ws[0]), ws[1..])
  }

  lemma {:induction false} CursorsOfSnoc(first: Option<nat>, ws: seq<seq<Row>>, w: seq<Row>)
    requires forall i :: 0 <= i < |ws| ==> ws[i] != []
    requires w != []
    ensures CursorsOf(first, ws + [w]) == CursorsOf(first, ws) + [NextCursor(w)]
  {
    var all := ws + [w];
    var lhs := CursorsOf(first, all);
    var rhs := CursorsOf(first, ws) + [NextCursor(w)];
    forall i | 0 <= i < |lhs| ensures lhs[i] == rhs[i] {
      if i > 0 {
        assert lhs[i] == NextCursor(all[i - 1]);
      }
    }
  }

  /** The cursor passed to every fetch, the final (empty) one included. */
  function FetchCursors(store: seq<Row>, lastId: Option<nat>): (cs: seq<Option<nat>>)
    ensures |cs| == |Windows(store, lastId)| + 1
    ensures cs[0] == lastId
  {
    CursorsOf(lastId, Windows(store, lastId))
  }

  /** Keyset pagination visits every admitted row exactly once, in id order:
      the windows concatenate to the ordered candidates. */
  lemma {:induction false} WindowsCoverCandidates(store: seq<Row>, lastId: Option<nat>)
    requires DistinctIds(store)
    ensures Flatten(Windows(store, lastId)) == SortById(Candidates(store, lastId))
    decreases |Candidates(store, lastId)|
  {
    var w := FetchNext(store, lastId);
    var ordered := SortById(Candidates(store, lastId));
    WindowIsPrefix(store, lastId);
    if w != [] {
      var next := NextCursor(w);
      CandidatesShrink(store, lastId);
      WindowsCoverCandidates(store, next);
      NextCandidates(store, lastId);
      WindowsStep(store, lastId);
      FlattenCons(w, Windows(store, next));
      PrefixThenRest(ordered, w);
    }
  }

  lemma FlattenCons<T>(w: seq<T>, rest: seq<seq<T>>)
    ensures Flatten([w] + rest) == w + Flatten(rest)
  {
    assert ([w] + rest)[0] == w && ([w] + rest)[1..] == rest;
  }

  lemma PrefixThenRest<T>(s: seq<T>, w: seq<T>)
    requires |w| <= |s| && w == s[..|w|]
    ensures s == w + s[|w|..]
  {
  }

  /** A full run (first cursor absent) adds every row of the store once, in
      strictly ascending id order, and the count of added rows is the store size. */
  lemma ReindexAddsEachRowOnce(store: seq<Row>)
    requires DistinctIds(store)
    ensures Ascending(Flatten(Windows(store, None)))
    ensures multiset(Flatten(Windows(store, None))) == multiset(store)
    ensures |Flatten(Windows(store, None))| == |store|
  {
    WindowsCoverCandidates(store, None);
    SortAscending(store);
  }

  /** One commit per window: the number of windows is the row count divided by
      the page size, rounded up. */
  lemma {:induction false} WindowCount(store: seq<Row>, lastId: Option<nat>)
    requires DistinctIds(store)
    ensures |Windows(store, lastId)| == CeilDiv(|Candidates(store, lastId)|)
    decreases |Candidates(store, lastId)|
  {
    var w := FetchNext(store, lastId);
    if w != [] {
      CandidatesShrink(store, lastId);
      WindowCount(store, NextCursor(w));
      WindowCountStep(store, lastId);
    }
  }

  /** One window more on top of the windows after it: the count of windows
      and the count of pages both go up by one. */
  lemma WindowCountStep(store: seq<Row>, lastId: Option<nat>)
    requires DistinctIds(store) && FetchNext(store, lastId) != []
    requires |Windows(store, NextCursor(FetchNext(store, lastId)))| ==
               CeilDiv(|Candidates(store, NextCursor(FetchNext(store, lastId)))|)
    ensures |Windows(store, lastId)| == CeilDiv(|Candidates(store, lastId)|)
  {
    var w := FetchNext(store, lastId);
    var next := NextCursor(w);
    var n := |Candidates(store, lastId)|;
    CandidatesLeft(store, lastId);
    WindowsStep(store, lastId);
    assert |Windows(store, lastId)| == 1 + |Windows(store, next)|;
    PagesStep(n, |w|);
  }

  /** The rows admitted after a window are the rows admitted before it, less
      the window's rows. */
  lemma CandidatesLeft(store: seq<Row>, lastId: Option<nat>)
    requires DistinctIds(store) && FetchNext(store, lastId) != []
    ensures |Candidates(store, NextCursor(FetchNext(store, lastId)))| ==
              |Candidates(store, lastId)| - |FetchNext(store, lastId)|
  {
    NextCandidates(store, lastId);
  }

  /** A window takes all the rows when they fit in a page and a full page
      otherwise, so the rows left need one page fewer. */
  lemma PagesStep(n: nat, w: nat)
    requires 0 < w && w == if n <= PageSize then n else PageSize
    ensures CeilDiv(n) == 1 + CeilDiv(n - w)
  {
    if n > PageSize {
      CeilDivStep(n);
    }
  }

  /** Unfolds one window of a scan whose first window is not empty. */
  lemma WindowsStep(store: seq<Row>, lastId: Option<nat>)
    requires FetchNext(store, lastId) != []
    ensures Windows(store, lastId) == [FetchNext(store, lastId)] + Windows(store, NextCursor(FetchNext(store, lastId)))
  {
  }

  /** A window shorter than a page is the last one. */
  lemma ShortWindowIsLast(store: seq<Row>, lastId: Option<nat>)
    requires DistinctIds(store)
    requires 0 < |FetchNext(store, lastId)| < PageSize
    ensures Windows(store, NextCursor(FetchNext(store, lastId))) == []
  {
    var w := FetchNext(store, lastId);
    var next := NextCursor(w);
    WindowIsPrefix(store, lastId);
    NextCandidates(store, lastId);
    assert |SortById(Candidates(store, next))| == 0;
    assert FetchNext(store, next) == [];
  }

  /** Every window holds between one and `PageSize` rows, and every window but
      the last holds exactly `PageSize`. */
  predicate FullPages(ws: seq<seq<Row>>) {
    (forall i :: 0 <= i < |ws| ==> 0 < |ws[i]| <= PageSize) &&
    (forall i :: 0 <= i < |ws| - 1 ==> |ws[i]| == PageSize)
  }

  lemma {:induction false} WindowsFull(store: seq<Row>, lastId: Option<nat>)
    requires DistinctIds(store)
    ensures FullPages(Windows(store, lastId))
    decreases |Candidates(store, lastId)|
  {
    var w := FetchNext(store, lastId);
    if w != [] {
      var next := NextCursor(w);
      CandidatesShrink(store, lastId);
      WindowsFull(store, next);
      WindowsStep(store, lastId);
      if |w| < PageSize {
        ShortWindowIsLast(store, lastId);
      }
      FullPagesCons(w, Windows(store, next));
    }
  }

  lemma FullPagesCons(w: seq<Row>, rest: seq<seq<Row>>)
    requires 0 < |w| <= PageSize && FullPages(rest)
    requires rest != [] ==> |w| == PageSize
    ensures FullPages([w] + rest)
  {
    var ws := [w] + rest;
    forall i | 0 <= i < |ws| ensures 0 < |ws[i]| <= PageSize && (i < |ws| - 1 ==> |ws[i]| == PageSize) {
      if i > 0 {
        assert ws[i] == rest[i - 1];
      }
    }
  }

  /** In a scan whose windows are full pages, the k-th cursor (k >= 1) is the
      id of the row at position min(k * PageSize, N) - 1 of the concatenated
      windows. */
  lemma {:induction false} CursorsAtPositions(first: Option<nat>, ws: seq<seq<Row>>, k: nat)
    requires FullPages(ws)
    requires 0 < k <= |ws|
    ensures 0 < Min(k * PageSize, |Flatten(ws)|)
    ensures CursorsOf(first, ws)[k] == Some(Flatten(ws)[Min(k * PageSize, |Flatten(ws)|) - 1].id)
    decreases k
  {
    var s := Flatten(ws);
    var rest := ws[1..];
    var s' := Flatten(rest);
    assert s == ws[0] + s';
    var cs := CursorsOf(first, ws);
    var cs' := CursorsOf(NextCursor(ws[0]), rest);
    assert cs == [first] + cs';
    if k == 1 {
      if |ws| == 1 {
        assert rest == [];
      } else {
        assert |ws[0]| == PageSize;
      }
      assert |ws[0]| == Min(k * PageSize, |s|);
    } else {
      assert |ws[0]| == PageSize;
      forall i | 0 <= i < |rest| - 1 ensures |rest[i]| == PageSize {
        assert rest[i] == ws[i + 1];
      }
      CursorsAtPositions(NextCursor(ws[0]), rest, k - 1);
      var m := Min((k - 1) * PageSize, |s'|);
      assert PageSize + m == Min(k * PageSize, |s|);
      assert s'[m - 1] == s[PageSize + m - 1];
      assert cs[k] == cs'[k - 1];
    }
  }

  /** The k-th fetch (k >= 1) starts after the row at position
      min(k * PageSize, N) - 1 of the ordered candidates. */
  lemma CursorPositions(store: seq<Row>, lastId: Option<nat>, k: nat)
    requires DistinctIds(store)
    requires 0 < k < |FetchCursors(store, lastId)|
    ensures 0 < Min(k * PageSize, |SortById(Candidates(store, lastId))|)
    ensures FetchCursors(store, lastId)[k] ==
              Some(SortById(Candidates(store, lastId))[Min(k * PageSize, |SortById(Candidates(store, lastId))|) - 1].id)
  {
    WindowsFull(store, lastId);
    WindowsCoverCandidates(store, lastId);
    CursorsAtPositions(lastId, Windows(store, lastId), k);
  }

  /** With N = 2 * PageSize + 5 rows there are four fetches: no cursor, then
      the ids of rows PageSize, 2 * PageSize and N in id order (the last fetch
      comes back empty). */
  lemma TwoPagesAndFive(store: seq<Row>)
    requires DistinctIds(store)
    requires |store| == 2 * PageSize + 5
    ensures FetchCursors(store, None) ==
              [None,
               Some(SortById(store)[PageSize - 1].id),
               Some(SortById(store)[2 * PageSize - 1].id),
               Some(SortById(store)[2 * PageSize + 4].id)]
  {
    ExampleFetchCount(store);
    CursorPositions(store, None, 1);
    CursorPositions(store, None, 2);
    CursorPositions(store, None, 3);
    var s := SortById(store);
    assert Candidates(store, None) == store;
    assert Min(PageSize, |s|) == 1000 && Min(2 * PageSize, |s|) == 2000 && Min(3 * PageSize, |s|) == 2005;
    var cs := FetchCursors(store, None);
    assert cs[0] == None;
    assert cs[1] == Some(s[PageSize - 1].id);
    assert cs[2] == Some(s[2 * PageSize - 1].id);
    assert cs[3] == Some(s[2 * PageSize + 4].id);
    FourElements(cs);
  }

  lemma FourElements<T>(cs: seq<T>)
    requires |cs| == 4
    ensures cs == [cs[0], cs[1], cs[2], cs[3]]
  {
  }

  lemma ExampleFetchCount(store: seq<Row>)
    requires DistinctIds(store)
    requires |store| == 2 * PageSize + 5
    ensures |FetchCursors(store, None)| == 4
  {
    assert Candidates(store, None) == store;
    WindowCount(store, None);
    assert CeilDiv(2005) == 3004 / 1000 == 3;
  }
}

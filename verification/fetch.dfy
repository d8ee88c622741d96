/** `fetchNext`: one window of the keyset-paginated scan over the store. */
module Fetch {
  import opened Rows
  import opened KeyOrder

  /** The query's range limit. */
  const PageSize: nat := 1000

  /** The rows the query's filter admits: all rows without a cursor,
      otherwise the rows whose id exceeds it. */
  function Candidates(store: seq<Row>, lastId: Option<nat>): (r: seq<Row>)
    ensures |r| <= |store|
    ensures forall y :: y in r <==> y in store && (lastId.Some? ==> y.id > lastId.value)
  {
    match lastId
    case None => store
    case Some(c) => After(store, c)
  }

  /** Filter by the cursor, order by id ascending, keep at most `PageSize` rows. */
  function FetchNext(store: seq<Row>, lastId: Option<nat>): (r: seq<Row>)
    ensures |r| <= PageSize
    ensures |r| == if |Candidates(store, lastId)| <= PageSize then |Candidates(store, lastId)| else PageSize
    ensures forall y :: y in r ==> y in store
    ensures lastId.Some? ==> forall y :: y in r ==> y.id > lastId.value
    ensures Sorted(r)
    ensures forall y :: y in Candidates(store, lastId) && y !in r ==>
              |r| == PageSize && r[|r| - 1].id <= y.id
  {
    var ordered := SortById(Candidates(store, lastId));
    if |ordered| <= PageSize then ordered
    else
      SortedPrefix(ordered, PageSize);
      ordered[..PageSize]
  }

  /** A prefix of an ordered sequence is ordered, and whatever it leaves out
      is not below its last element. */
  lemma SortedPrefix(s: seq<Row>, n: nat)
    requires Sorted(s) && 0 < n <= |s|
    ensures Sorted(s[..n])
    ensures forall y :: y in s && y !in s[..n] ==> s[n - 1].id <= y.id
  {
    forall y | y in s && y !in s[..n] ensures s[n - 1].id <= y.id {
      assert s == s[..n] + s[n..];
      assert y in s[n..];
      var i :| 0 <= i < |s[n..]| && s[n..][i] == y;
      assert s[n..][i] == s[n + i];
    }
  }

  /** A window is the first rows of the ordered candidates. */
  lemma WindowIsPrefix(store: seq<Row>, lastId: Option<nat>)
    ensures var w := FetchNext(store, lastId);
            |w| <= |SortById(Candidates(store, lastId))| &&
            w == SortById(Candidates(store, lastId))[..|w|]
  {
  }

  lemma CandidatesDistinct(store: seq<Row>, lastId: Option<nat>)
    requires DistinctIds(store)
    ensures DistinctIds(Candidates(store, lastId))
  {
    if lastId.Some? {
      AfterDistinct(store, lastId.value);
    }
  }

  /** With distinct ids a window is strictly ascending, and every admitted row
      it leaves out lies strictly above its last id. */
  lemma FetchNextAscending(store: seq<Row>, lastId: Option<nat>)
    requires DistinctIds(store)
    ensures Ascending(FetchNext(store, lastId))
    ensures forall y :: y in Candidates(store, lastId) && y !in FetchNext(store, lastId) ==>
              FetchNext(store, lastId)[|FetchNext(store, lastId)| - 1].id < y.id
  {
    CandidatesDistinct(store, lastId);
    var ordered := SortById(Candidates(store, lastId));
    SortAscending(Candidates(store, lastId));
    WindowIsPrefix(store, lastId);
    AscendingPrefix(ordered, |FetchNext(store, lastId)|);
  }

  /** A prefix of a strictly ascending sequence is strictly ascending, and
      every element left out lies strictly above its last element. */
  lemma AscendingPrefix(s: seq<Row>, n: nat)
    requires Ascending(s) && n <= |s|
    ensures Ascending(s[..n])
    ensures forall y :: y in s && y !in s[..n] && 0 < n ==> s[n - 1].id < y.id
  {
    forall y | y in s && y !in s[..n] && 0 < n ensures s[n - 1].id < y.id {
      assert s == s[..n] + s[n..];
      assert y in s[n..];
      var i :| 0 <= i < |s[n..]| && s[n..][i] == y;
      assert s[n..][i] == s[n + i];
    }
  }

  /** The cursor a non-empty window hands to the next fetch. */
  function NextCursor(w: seq<Row>): Option<nat>
    requires w != []
  {
    Some(w[|w| - 1].id)
  }

  /** The cursor only moves forward: the one a window hands on lies strictly
      above the cursor the window was fetched with. */
  lemma CursorAdvances(store: seq<Row>, lastId: Option<nat>)
    requires FetchNext(store, lastId) != []
    ensures lastId.Some? ==> NextCursor(FetchNext(store, lastId)).value > lastId.value
  {
    var w := FetchNext(store, lastId);
    assert w[|w| - 1] in w;
  }

  /** Each non-empty window moves the cursor past at least one admitted row,
      so fewer rows remain admitted: the measure that makes the scan terminate. */
  lemma CandidatesShrink(store: seq<Row>, lastId: Option<nat>)
    requires FetchNext(store, lastId) != []
    ensures |Candidates(store, NextCursor(FetchNext(store, lastId)))| < |Candidates(store, lastId)|
  {
    var w := FetchNext(store, lastId);
    var c' := w[|w| - 1].id;
    assert w[|w| - 1] in w;
    if lastId.Some? {
      AfterAfter(store, lastId.value, c');
    }
    AfterShrinks(Candidates(store, lastId), c', w[|w| - 1]);
  }

  /** The cursor a window hands on admits exactly the rows that the old
      cursor admitted and that lie above the window's last id. */
  lemma CandidatesAfterWindow(store: seq<Row>, lastId: Option<nat>)
    requires FetchNext(store, lastId) != []
    ensures var w := FetchNext(store, lastId);
            Candidates(store, NextCursor(w)) == After(Candidates(store, lastId), w[|w| - 1].id)
  {
    var w := FetchNext(store, lastId);
    var last := w[|w| - 1];
    assert last in w;
    assert Candidates(store, NextCursor(w)) == After(store, last.id);
    match lastId
    case None =>
    case Some(c) =>
      assert c < last.id;
      AfterAfter(store, c, last.id);
  }

  /** After a window, the ordered rows still admitted are exactly the ordered
      rows admitted before, minus the window: nothing skipped, nothing repeated. */
  lemma NextCandidates(store: seq<Row>, lastId: Option<nat>)
    requires DistinctIds(store)
    requires FetchNext(store, lastId) != []
    ensures var w := FetchNext(store, lastId);
            SortById(Candidates(store, NextCursor(w))) == SortById(Candidates(store, lastId))[|w|..]
  {
    var w := FetchNext(store, lastId);
    var admitted := Candidates(store, lastId);
    var ordered := SortById(admitted);
    WindowIsPrefix(store, lastId);
    assert ordered[|w| - 1] == w[|w| - 1];
    CandidatesAfterWindow(store, lastId);
    SortAfterCommute(admitted, w[|w| - 1].id);
    CandidatesDistinct(store, lastId);
    SortAscending(admitted);
    AfterOfAscending(ordered, |w|);
  }
}

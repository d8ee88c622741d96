/** The two operations the reindex query applies to the store: keeping the rows
    above a cursor (`id > :lastId`) and ordering by id (`id ASC`), with the
    facts about them that keyset pagination needs. */
module KeyOrder {
  import opened Rows

  /** Inserts `x` before the first row whose id is not smaller (stable). */
  function Insert(x: Row, s: seq<Row>): (r: seq<Row>)
    ensures |r| == |s| + 1
    ensures multiset(r) == multiset(s) + multiset{x}
    ensures forall y :: y in r <==> y == x || y in s
  {
    if s == [] then [x]
    else if x.id <= s[0].id then [x] + s
    else
      assert s == [s[0]] + s[1..];
      [s[0]] + Insert(x, s[1..])
  }

  lemma {:induction false} InsertSorted(x: Row, s: seq<Row>)
    requires Sorted(s)
    ensures Sorted(Insert(x, s))
  {
    if s != [] && x.id > s[0].id {
      InsertSorted(x, s[1..]);
      var t := Insert(x, s[1..]);
      forall j | 0 <= j < |t| ensures s[0].id <= t[j].id {
        assert t[j] in t;
        if t[j] != x {
          var k :| 0 <= k < |s[1..]| && s[1..][k] == t[j];
          assert s[k + 1] == t[j];
        }
      }
      assert Insert(x, s) == [s[0]] + t;
    }
  }

  /** The `id ASC` ordering of a query result. */
  function SortById(s: seq<Row>): (r: seq<Row>)
    ensures |r| == |s|
    ensures multiset(r) == multiset(s)
    ensures forall y :: y in r <==> y in s
    ensures Sorted(r)
  {
    if s == [] then []
    else
      assert s == [s[0]] + s[1..];
      InsertSorted(s[0], SortById(s[1..]));
      Insert(s[0], SortById(s[1..]))
  }

  /** The `id > :lastId` filter. */
  function After(s: seq<Row>, c: nat): (r: seq<Row>)
    ensures |r| <= |s|
    ensures forall y :: y in r <==> y in s && y.id > c
  {
    if s == [] then []
    else if s[0].id > c then [s[0]] + After(s[1..], c)
    else After(s[1..], c)
  }

  lemma {:induction false} InsertDistinct(x: Row, s: seq<Row>)
    requires DistinctIds(s)
    requires forall y :: y in s ==> y.id != x.id
    ensures DistinctIds(Insert(x, s))
  {
    if s != [] && x.id > s[0].id {
      InsertDistinct(x, s[1..]);
      var t := Insert(x, s[1..]);
      forall j | 0 <= j < |t| ensures s[0].id != t[j].id {
        assert t[j] in t;
      }
    }
  }

  /** Sorting a store with distinct ids gives a strictly ascending sequence. */
  lemma {:induction false} SortAscending(s: seq<Row>)
    requires DistinctIds(s)
    ensures DistinctIds(SortById(s))
    ensures Ascending(SortById(s))
  {
    if s != [] {
      SortAscending(s[1..]);
      forall y | y in SortById(s[1..]) ensures y.id != s[0].id {
        var j :| 0 <= j < |s[1..]| && s[1..][j] == y;
        assert s[j + 1] == y;
      }
      InsertDistinct(s[0], SortById(s[1..]));
    }
  }

  lemma {:induction false} AfterDistinct(s: seq<Row>, c: nat)
    requires DistinctIds(s)
    ensures DistinctIds(After(s, c))
  {
    if s != [] {
      AfterDistinct(s[1..], c);
      if s[0].id > c {
        var t := After(s[1..], c);
        forall j | 0 <= j < |t| ensures s[0].id != t[j].id {
          assert t[j] in s[1..];
        }
      }
    }
  }

  /** A row at or below the cursor is dropped, so the filter strictly shrinks. */
  lemma {:induction false} AfterShrinks(s: seq<Row>, c: nat, y: Row)
    requires y in s && y.id <= c
    ensures |After(s, c)| < |s|
  {
    if s[0] != y {
      AfterShrinks(s[1..], c, y);
    }
  }

  /** Filtering by a cursor and then by a later one is filtering by the later one. */
  lemma {:induction false} AfterAfter(s: seq<Row>, c: nat, c': nat)
    requires c <= c'
    ensures After(After(s, c), c') == After(s, c')
  {
    if s != [] {
      AfterAfter(s[1..], c, c');
      if s[0].id > c {
        assert After(s, c) == [s[0]] + After(s[1..], c);
        assert ([s[0]] + After(s[1..], c))[1..] == After(s[1..], c);
      }
    }
  }

  lemma {:induction false} AfterAllAbove(s: seq<Row>, c: nat)
    requires forall i :: 0 <= i < |s| ==> s[i].id > c
    ensures After(s, c) == s
  {
    if s != [] {
      AfterAllAbove(s[1..], c);
    }
  }

  /** No row lies above a cursor at or beyond every id. */
  lemma {:induction false} AfterAllBelow(s: seq<Row>, c: nat)
    requires forall i :: 0 <= i < |s| ==> s[i].id <= c
    ensures After(s, c) == []
  {
    if s != [] {
      AfterAllBelow(s[1..], c);
    }
  }

  /** On a strictly ascending sequence, the rows above the id at position
      `k - 1` are exactly the suffix from `k`. */
  lemma {:induction false} AfterOfAscending(s: seq<Row>, k: nat)
    requires Ascending(s)
    requires 0 < k <= |s|
    ensures After(s, s[k - 1].id) == s[k..]
  {
    AscendingTail(s);
    if k == 1 {
      AfterAllAbove(s[1..], s[0].id);
    } else {
      AfterOfAscending(s[1..], k - 1);
      assert s[1..][k - 2] == s[k - 1];
      assert s[1..][k - 1..] == s[k..];
    }
  }

  /** The tail of a strictly ascending sequence is strictly ascending and lies
      above its head. */
  lemma AscendingTail(s: seq<Row>)
    requires Ascending(s) && s != []
    ensures Ascending(s[1..])
    ensures forall i :: 0 <= i < |s[1..]| ==> s[1..][i].id > s[0].id
  {
    forall i | 0 <= i < |s[1..]| ensures s[1..][i].id > s[0].id {
      assert s[1..][i] == s[i + 1];
    }
  }

  lemma {:induction false} InsertFront(x: Row, s: seq<Row>)
    requires forall y :: y in s ==> x.id <= y.id
    ensures Insert(x, s) == [x] + s
  {
    if s != [] {
      assert s[0] in s;
    }
  }

  lemma {:induction false} AfterInsert(x: Row, s: seq<Row>, c: nat)
    requires Sorted(s)
    ensures After(Insert(x, s), c) == if x.id > c then Insert(x, After(s, c)) else After(s, c)
  {
    if s == [] {
    } else if x.id <= s[0].id {
      assert Insert(x, s) == [x] + s;
      assert ([x] + s)[1..] == s;
      if x.id > c {
        forall y | y in After(s, c) ensures x.id <= y.id {
          var j :| 0 <= j < |s| && s[j] == y;
        }
        InsertFront(x, After(s, c));
      }
    } else {
      AfterInsert(x, s[1..], c);
      var t := Insert(x, s[1..]);
      assert Insert(x, s) == [s[0]] + t;
      assert ([s[0]] + t)[0] == s[0] && ([s[0]] + t)[1..] == t;
      if s[0].id > c {
        assert After(s, c) == [s[0]] + After(s[1..], c);
        assert ([s[0]] + After(s[1..], c))[0] == s[0];
        assert ([s[0]] + After(s[1..], c))[1..] == After(s[1..], c);
      }
    }
  }

  /** Filtering then ordering is the same as ordering then filtering: the
      query's `id > :lastId` and `id ASC` commute. */
  lemma {:induction false} SortAfterCommute(s: seq<Row>, c: nat)
    ensures SortById(After(s, c)) == After(SortById(s), c)
  {
    if s != [] {
      SortAfterCommute(s[1..], c);
      AfterInsert(s[0], SortById(s[1..]), c);
      if s[0].id > c {
        var t := [s[0]] + After(s[1..], c);
        assert t[0] == s[0] && t[1..] == After(s[1..], c);
      }
    }
  }
}

/** The VulnerableSoftware indexer: per-row add and remove against the shared
    index writer, and the full rebuild driven by keyset pagination.

    The index writer is represented by two document collections: `pending`,
    everything the writer holds including uncommitted changes, and
    `committed`, the snapshot readers see. `commit`, the index clear done
    before a rebuild and the corruption handler belong to the shared index
    manager, whose code is not part of this model; their methods below carry
    the contracts this model assumes of them. */
module Indexer {
  import opened Rows
  import opened KeyOrder
  import opened Fetch
  import opened Pagination
  import opened Documents
  import opened Scan

  /** How the writer answers one add or delete: it succeeds, fails with an
      I/O error carrying a message, or reports a corrupt index. */
  datatype WriteOutcome = Written | IoFailure(message: string) | Corrupted

  datatype Scope = SystemScope
  datatype Group = IndexingService
  datatype Level = ErrorLevel
  datatype Title = VulnerableSoftwareIndexerTitle

  /** Side effects other than index contents, in the order they happen: a
      notification dispatched to operators, or a run of the corruption handler. */
  datatype Event =
    | Notification(scope: Scope, group: Group, title: Title, content: string, level: Level)
    | CorruptIndexHandled

  const AddFailureText: string :=
    "An error occurred while adding a VulnerableSoftware to the index. Check log for details. "
  const RemoveFailureText: string :=
    "An error occurred while removing a VulnerableSoftware from the index. Check log for details. "

  /** The error notification dispatched when a write fails with an I/O error. */
  function FailureNotice(text: string, message: string): Event {
    Notification(SystemScope, IndexingService, VulnerableSoftwareIndexerTitle, text + message, ErrorLevel)
  }

  /** The documents `add` builds for the given rows, in order. */
  function DocumentsOf(rows: seq<Row>): seq<Document> {
    seq(|rows|, i requires 0 <= i < |rows| => ToDocument(rows[i]))
  }

  lemma DocumentsOfConcat(a: seq<Row>, b: seq<Row>)
    ensures DocumentsOf(a + b) == DocumentsOf(a) + DocumentsOf(b)
  {
  }

  /** Whether any of the `n` adds starting at add number `first` meets a
      corrupt index. */
  function SomeCorrupted(outcome: nat -> WriteOutcome, first: nat, n: nat): (corrupted: bool) {
    if n == 0 then false
    else SomeCorrupted(outcome, first, n - 1) || outcome(first + n - 1).Corrupted?
  }

  /** `SomeCorrupted` holds exactly when one of the `n` adds meets corruption. */
  lemma {:induction false} SomeCorruptedMeans(outcome: nat -> WriteOutcome, first: nat, n: nat)
    ensures SomeCorrupted(outcome, first, n) <==> exists j :: first <= j < first + n && outcome(j).Corrupted?
  {
    if n > 0 {
      SomeCorruptedMeans(outcome, first, n - 1);
    }
  }

  /** The events `n` adds starting at add number `first` leave behind: a
      failure notice per I/O error and a handler run per corruption, in order. */
  function AddEvents(outcome: nat -> WriteOutcome, first: nat, n: nat): (es: seq<Event>)
    ensures |es| <= n
  {
    if n == 0 then []
    else
      var o := outcome(first + n - 1);
      AddEvents(outcome, first, n - 1) +
      match o
      case Written => []
      case IoFailure(message) => [FailureNotice(AddFailureText, message)]
      case Corrupted => [CorruptIndexHandled]
  }

  /** A run leaves only handler runs and add-failure notices, and none at all
      when every add is written. */
  lemma {:induction false} AddEventsKinds(outcome: nat -> WriteOutcome, first: nat, n: nat)
    ensures forall e :: e in AddEvents(outcome, first, n) ==>
              e == CorruptIndexHandled || exists m :: e == FailureNotice(AddFailureText, m)
    ensures (forall j :: first <= j < first + n ==> outcome(j).Written?) ==> AddEvents(outcome, first, n) == []
  {
    if n > 0 {
      AddEventsKinds(outcome, first, n - 1);
    }
  }

  /** Every failed add leaves its notice, and a handler run is recorded
      exactly when some add met corruption. */
  lemma {:induction false} AddEventsReport(outcome: nat -> WriteOutcome, first: nat, n: nat)
    ensures forall j: nat :: first <= j < first + n && outcome(j).IoFailure? ==>
              FailureNotice(AddFailureText, outcome(j).message) in AddEvents(outcome, first, n)
    ensures CorruptIndexHandled in AddEvents(outcome, first, n) <==> SomeCorrupted(outcome, first, n)
  {
    if n > 0 {
      AddEventsReport(outcome, first, n - 1);
    }
  }

  /** Exactly one event per add that was not written. */
  lemma {:induction false} AddEventsCount(outcome: nat -> WriteOutcome, first: nat, n: nat)
    ensures |AddEvents(outcome, first, n)| == |set j: nat | first <= j < first + n && !outcome(j).Written?|
  {
    if n > 0 {
      AddEventsCount(outcome, first, n - 1);
      var k := first + n - 1;
      var before := set j: nat | first <= j < k && !outcome(j).Written?;
      var after := set j: nat | first <= j < first + n && !outcome(j).Written?;
      if outcome(k).Written? {
        assert after == before;
      } else {
        assert after == before + {k};
        assert k !in before;
      }
    }
  }

  /** The events of a run are those of its first `a` adds followed by those
      of the next `b`. */
  lemma {:induction false} AddEventsConcat(outcome: nat -> WriteOutcome, first: nat, a: nat, b: nat)
    ensures AddEvents(outcome, first, a + b) == AddEvents(outcome, first, a) + AddEvents(outcome, first + a, b)
  {
    if b > 0 {
      var c := b - 1;
      AddEventsConcat(outcome, first, a, c);
      AddEventsLast(outcome, first, a + c);
      AddEventsLast(outcome, first + a, c);
      var head, mid, last := AddEvents(outcome, first, a), AddEvents(outcome, first + a, c), AddEvents(outcome, first + a + c, 1);
      assert head + (mid + last) == (head + mid) + last;
    }
  }

  /** The events of a run are those of all its adds but the last, then those
      of the last. */
  lemma AddEventsLast(outcome: nat -> WriteOutcome, first: nat, n: nat)
    ensures AddEvents(outcome, first, n + 1) == AddEvents(outcome, first, n) + AddEvents(outcome, first + n, 1)
  {
  }

  /** The rows among the first `n` of a run whose document the writer still
      holds after those adds: the ones written after the last corruption, in
      order. */
  function Accepted(rows: seq<Row>, outcome: nat -> WriteOutcome, first: nat, n: nat): (kept: seq<Row>)
    requires n <= |rows|
    ensures |kept| <= n
  {
    if n == 0 then []
    else
      match outcome(first + n - 1)
      case Corrupted => []
      case IoFailure(_) => Accepted(rows, outcome, first, n - 1)
      case Written => Accepted(rows, outcome, first, n - 1) + [rows[n - 1]]
  }

  /** When each of the first `n` adds is written, each of those rows is kept,
      in order. */
  lemma {:induction false} AcceptedAllWritten(rows: seq<Row>, outcome: nat -> WriteOutcome, first: nat, n: nat)
    requires n <= |rows|
    requires forall j :: first <= j < first + n ==> outcome(j).Written?
    ensures Accepted(rows, outcome, first, n) == rows[..n]
  {
    if n > 0 {
      AcceptedAllWritten(rows, outcome, first, n - 1);
      assert outcome(first + n - 1).Written?;
      assert rows[..n - 1] + [rows[n - 1]] == rows[..n];
    }
  }

  /** The position after the last of the first `n` adds that met a corrupt
      index, or 0 when none did. */
  function Restart(outcome: nat -> WriteOutcome, first: nat, n: nat): (s: nat)
    ensures s <= n
    ensures !SomeCorrupted(outcome, first + s, n - s)
    ensures s > 0 ==> outcome(first + s - 1).Corrupted?
  {
    if n == 0 then 0
    else if outcome(first + n - 1).Corrupted? then n
    else Restart(outcome, first, n - 1)
  }

  /** The rows at positions `lo` up to `n` whose add was written, left to right. */
  function WrittenBetween(rows: seq<Row>, outcome: nat -> WriteOutcome, first: nat, lo: nat, n: nat): (written: seq<Row>)
    requires lo <= n <= |rows|
    ensures |written| <= n - lo
    decreases n - lo
  {
    if lo == n then []
    else (if outcome(first + lo).Written? then [rows[lo]] else []) + WrittenBetween(rows, outcome, first, lo + 1, n)
  }

  /** Extending the range by one position appends that row when it was written. */
  lemma {:induction false} WrittenBetweenSnoc(rows: seq<Row>, outcome: nat -> WriteOutcome, first: nat, lo: nat, n: nat)
    requires lo < n <= |rows|
    ensures WrittenBetween(rows, outcome, first, lo, n) ==
              WrittenBetween(rows, outcome, first, lo, n - 1) +
              (if outcome(first + n - 1).Written? then [rows[n - 1]] else [])
    decreases n - lo
  {
    var head := if outcome(first + lo).Written? then [rows[lo]] else [];
    var last := if outcome(first + n - 1).Written? then [rows[n - 1]] else [];
    assert WrittenBetween(rows, outcome, first, lo, n) == head + WrittenBetween(rows, outcome, first, lo + 1, n);
    if lo < n - 1 {
      WrittenBetweenSnoc(rows, outcome, first, lo + 1, n);
      assert WrittenBetween(rows, outcome, first, lo, n - 1) == head + WrittenBetween(rows, outcome, first, lo + 1, n - 1);
      assert head + (WrittenBetween(rows, outcome, first, lo + 1, n - 1) + last) ==
             (head + WrittenBetween(rows, outcome, first, lo + 1, n - 1)) + last;
    } else {
      assert head == last;
    }
  }

  /** `Accepted` keeps, in their order in the run, exactly the written rows
      after the last corruption. */
  lemma {:induction false} AcceptedInOrder(rows: seq<Row>, outcome: nat -> WriteOutcome, first: nat, n: nat)
    requires n <= |rows|
    ensures Accepted(rows, outcome, first, n) == WrittenBetween(rows, outcome, first, Restart(outcome, first, n), n)
  {
    if n > 0 && !outcome(first + n - 1).Corrupted? {
      AcceptedInOrder(rows, outcome, first, n - 1);
      WrittenBetweenSnoc(rows, outcome, first, Restart(outcome, first, n - 1), n);
    }
  }

  /** Row `r` survives the first `n` adds of a run: one of them wrote it and no
      later one of them met a corrupt index. */
  ghost predicate Survives(rows: seq<Row>, outcome: nat -> WriteOutcome, first: nat, n: nat, r: Row)
    requires n <= |rows|
  {
    exists j :: 0 <= j < n && rows[j] == r && outcome(first + j).Written? &&
                !SomeCorrupted(outcome, first + j + 1, n - j - 1)
  }

  /** The rows `Accepted` keeps are exactly the rows that survive the run. */
  lemma {:induction false} AcceptedMembers(rows: seq<Row>, outcome: nat -> WriteOutcome, first: nat, n: nat)
    requires n <= |rows|
    ensures forall r :: r in Accepted(rows, outcome, first, n) <==> Survives(rows, outcome, first, n, r)
  {
    if n > 0 {
      AcceptedMembers(rows, outcome, first, n - 1);
      forall r ensures r in Accepted(rows, outcome, first, n) <==> Survives(rows, outcome, first, n, r) {
        if Survives(rows, outcome, first, n, r) {
          var j := SurvivorPosition(rows, outcome, first, n, r);
          SurvivorKept(rows, outcome, first, n, r, j);
        }
        if r in Accepted(rows, outcome, first, n) {
          KeptSurvives(rows, outcome, first, n, r);
        }
      }
    }
  }

  /** A row written at position `j` with no corruption after it is kept. */
  lemma SurvivorKept(rows: seq<Row>, outcome: nat -> WriteOutcome, first: nat, n: nat, r: Row, j: nat)
    requires 0 < n <= |rows|
    requires Survives(rows, outcome, first, n - 1, r) ==> r in Accepted(rows, outcome, first, n - 1)
    requires j < n && rows[j] == r && outcome(first + j).Written?
    requires !SomeCorrupted(outcome, first + j + 1, n - j - 1)
    ensures r in Accepted(rows, outcome, first, n)
  {
    if j < n - 1 {
      EarlierSurvivor(rows, outcome, first, n, r, j);
      KeptAfter(rows, outcome, first, n, r);
    } else {
      AcceptedWritten(rows, outcome, first, n);
    }
  }

  /** A survivor written before the last add survived without that add, which
      does not meet corruption. */
  lemma EarlierSurvivor(rows: seq<Row>, outcome: nat -> WriteOutcome, first: nat, n: nat, r: Row, j: nat)
    requires 0 < n <= |rows|
    requires j < n - 1 && rows[j] == r && outcome(first + j).Written?
    requires !SomeCorrupted(outcome, first + j + 1, n - j - 1)
    ensures Survives(rows, outcome, first, n - 1, r) && !outcome(first + n - 1).Corrupted?
  {
    var from, m := first + j + 1, n - j - 2;
    assert n - j - 1 == m + 1 && from + m == first + n - 1;
    LaterCorruption(outcome, from, m);
    SurvivesAt(rows, outcome, first, n - 1, r, j);
  }

  /** A kept row stays kept through a last add that does not meet corruption. */
  lemma KeptAfter(rows: seq<Row>, outcome: nat -> WriteOutcome, first: nat, n: nat, r: Row)
    requires 0 < n <= |rows|
    requires r in Accepted(rows, outcome, first, n - 1)
    requires !outcome(first + n - 1).Corrupted?
    ensures r in Accepted(rows, outcome, first, n)
  {
    if outcome(first + n - 1).Written? {
      AcceptedWritten(rows, outcome, first, n);
    }
  }

  /** A row `Accepted` keeps survives the run. */
  lemma KeptSurvives(rows: seq<Row>, outcome: nat -> WriteOutcome, first: nat, n: nat, r: Row)
    requires 0 < n <= |rows|
    requires r in Accepted(rows, outcome, first, n - 1) ==> Survives(rows, outcome, first, n - 1, r)
    requires r in Accepted(rows, outcome, first, n)
    ensures Survives(rows, outcome, first, n, r)
  {
    if outcome(first + n - 1).Written? && r == rows[n - 1] {
      SurvivesAt(rows, outcome, first, n, r, n - 1);
    } else {
      KeptBefore(rows, outcome, first, n, r);
      var j := SurvivorPosition(rows, outcome, first, n - 1, r);
      KeptEarlier(rows, outcome, first, n, r, j);
    }
  }

  /** A kept row other than a written last row was kept before the last add,
      and that add did not meet corruption. */
  lemma KeptBefore(rows: seq<Row>, outcome: nat -> WriteOutcome, first: nat, n: nat, r: Row)
    requires 0 < n <= |rows|
    requires r in Accepted(rows, outcome, first, n)
    requires !(outcome(first + n - 1).Written? && r == rows[n - 1])
    ensures !outcome(first + n - 1).Corrupted? && r in Accepted(rows, outcome, first, n - 1)
  {
    if outcome(first + n - 1).Written? {
      AcceptedWritten(rows, outcome, first, n);
    }
  }

  /** The position of a written add that makes `r` survive. */
  lemma SurvivorPosition(rows: seq<Row>, outcome: nat -> WriteOutcome, first: nat, n: nat, r: Row) returns (j: nat)
    requires n <= |rows|
    requires Survives(rows, outcome, first, n, r)
    ensures j < n && rows[j] == r && outcome(first + j).Written?
    ensures !SomeCorrupted(outcome, first + j + 1, n - j - 1)
  {
    j :| 0 <= j < n && rows[j] == r && outcome(first + j).Written? &&
         !SomeCorrupted(outcome, first + j + 1, n - j - 1);
  }

  /** A survivor of the run without its last add still survives when that
      add does not meet corruption. */
  lemma KeptEarlier(rows: seq<Row>, outcome: nat -> WriteOutcome, first: nat, n: nat, r: Row, j: nat)
    requires 0 < n <= |rows|
    requires !outcome(first + n - 1).Corrupted?
    requires j < n - 1 && rows[j] == r && outcome(first + j).Written?
    requires !SomeCorrupted(outcome, first + j + 1, n - j - 2)
    ensures Survives(rows, outcome, first, n, r)
  {
    var from, m := first + j + 1, n - j - 2;
    assert n - j - 1 == m + 1 && from + m == first + n - 1;
    LaterCorruption(outcome, from, m);
    SurvivesAt(rows, outcome, first, n, r, j);
  }

  /** A written add of `r` at position `j`, with no corruption after it, makes
      `r` survive. */
  lemma SurvivesAt(rows: seq<Row>, outcome: nat -> WriteOutcome, first: nat, n: nat, r: Row, j: nat)
    requires n <= |rows|
    requires j < n && rows[j] == r && outcome(first + j).Written?
    requires !SomeCorrupted(outcome, first + j + 1, n - j - 1)
    ensures Survives(rows, outcome, first, n, r)
  {
  }

  /** A written last add appends its row to what the earlier adds kept. */
  lemma AcceptedWritten(rows: seq<Row>, outcome: nat -> WriteOutcome, first: nat, n: nat)
    requires 0 < n <= |rows| && outcome(first + n - 1).Written?
    ensures Accepted(rows, outcome, first, n) == Accepted(rows, outcome, first, n - 1) + [rows[n - 1]]
  {
  }

  /** One more add at the end of a run meets corruption exactly when the run
      or that add does. */
  lemma LaterCorruption(outcome: nat -> WriteOutcome, from: nat, m: nat)
    ensures SomeCorrupted(outcome, from, m + 1) == (SomeCorrupted(outcome, from, m) || outcome(from + m).Corrupted?)
  {
  }

  /** `Accepted` of the first `n` adds depends only on the first `n` rows. */
  lemma {:induction false} AcceptedPrefix(rows: seq<Row>, rows': seq<Row>, outcome: nat -> WriteOutcome, first: nat, n: nat)
    requires n <= |rows| && n <= |rows'| && rows[..n] == rows'[..n]
    ensures Accepted(rows, outcome, first, n) == Accepted(rows', outcome, first, n)
  {
    if n > 0 {
      assert rows[..n - 1] == rows[..n][..n - 1] && rows'[..n - 1] == rows'[..n][..n - 1];
      assert rows[n - 1] == rows[..n][n - 1] && rows'[n - 1] == rows'[..n][n - 1];
      AcceptedPrefix(rows, rows', outcome, first, n - 1);
    }
  }

  /** Two runs back to back: the rows kept from the first survive only when
      no add of the second meets corruption, and the rows kept from the second
      follow them. */
  lemma {:induction false} AcceptedConcat(xs: seq<Row>, ys: seq<Row>, outcome: nat -> WriteOutcome, first: nat, m: nat)
    requires m <= |ys|
    ensures Accepted(xs + ys, outcome, first, |xs| + m) ==
              (if SomeCorrupted(outcome, first + |xs|, m) then [] else Accepted(xs, outcome, first, |xs|)) +
              Accepted(ys, outcome, first + |xs|, m)
  {
    if m == 0 {
      ConcatNone(xs, ys, outcome, first);
    } else {
      AcceptedConcat(xs, ys, outcome, first, m - 1);
      LaterCorruption(outcome, first + |xs|, m - 1);
      match outcome(first + |xs| + m - 1)
      case Written => ConcatWritten(xs, ys, outcome, first, m);
      case IoFailure(_) => ConcatFailed(xs, ys, outcome, first, m);
      case Corrupted => ConcatCorrupted(xs, ys, outcome, first, m);
    }
  }

  /** The base of `AcceptedConcat`: none of the second run's adds. */
  lemma ConcatNone(xs: seq<Row>, ys: seq<Row>, outcome: nat -> WriteOutcome, first: nat)
    ensures Accepted(xs + ys, outcome, first, |xs|) == Accepted(xs, outcome, first, |xs|)
  {
    assert (xs + ys)[..|xs|] == xs[..|xs|];
    AcceptedPrefix(xs + ys, xs, outcome, first, |xs|);
  }

  /** The step of `AcceptedConcat` for a written last add. */
  lemma ConcatWritten(xs: seq<Row>, ys: seq<Row>, outcome: nat -> WriteOutcome, first: nat, m: nat)
    requires 0 < m <= |ys| && outcome(first + |xs| + m - 1).Written?
    requires SomeCorrupted(outcome, first + |xs|, m) == SomeCorrupted(outcome, first + |xs|, m - 1)
    requires Accepted(xs + ys, outcome, first, |xs| + m - 1) ==
               (if SomeCorrupted(outcome, first + |xs|, m - 1) then [] else Accepted(xs, outcome, first, |xs|)) +
               Accepted(ys, outcome, first + |xs|, m - 1)
    ensures Accepted(xs + ys, outcome, first, |xs| + m) ==
              (if SomeCorrupted(outcome, first + |xs|, m) then [] else Accepted(xs, outcome, first, |xs|)) +
              Accepted(ys, outcome, first + |xs|, m)
  {
    var before := if SomeCorrupted(outcome, first + |xs|, m - 1) then [] else Accepted(xs, outcome, first, |xs|);
    var prev := Accepted(ys, outcome, first + |xs|, m - 1);
    assert (xs + ys)[|xs| + m - 1] == ys[m - 1];
    AcceptedWritten(xs + ys, outcome, first, |xs| + m);
    AcceptedWritten(ys, outcome, first + |xs|, m);
    assert before + (prev + [ys[m - 1]]) == (before + prev) + [ys[m - 1]];
  }

  /** The step of `AcceptedConcat` for a last add that fails with an I/O error. */
  lemma ConcatFailed(xs: seq<Row>, ys: seq<Row>, outcome: nat -> WriteOutcome, first: nat, m: nat)
    requires 0 < m <= |ys| && outcome(first + |xs| + m - 1).IoFailure?
    requires SomeCorrupted(outcome, first + |xs|, m) == SomeCorrupted(outcome, first + |xs|, m - 1)
    requires Accepted(xs + ys, outcome, first, |xs| + m - 1) ==
               (if SomeCorrupted(outcome, first + |xs|, m - 1) then [] else Accepted(xs, outcome, first, |xs|)) +
               Accepted(ys, outcome, first + |xs|, m - 1)
    ensures Accepted(xs + ys, outcome, first, |xs| + m) ==
              (if SomeCorrupted(outcome, first + |xs|, m) then [] else Accepted(xs, outcome, first, |xs|)) +
              Accepted(ys, outcome, first + |xs|, m)
  {
    assert Accepted(xs + ys, outcome, first, |xs| + m) == Accepted(xs + ys, outcome, first, |xs| + m - 1);
    assert Accepted(ys, outcome, first + |xs|, m) == Accepted(ys, outcome, first + |xs|, m - 1);
  }

  /** The step of `AcceptedConcat` for a last add that meets a corrupt index. */
  lemma ConcatCorrupted(xs: seq<Row>, ys: seq<Row>, outcome: nat -> WriteOutcome, first: nat, m: nat)
    requires 0 < m <= |ys| && outcome(first + |xs| + m - 1).Corrupted?
    ensures Accepted(xs + ys, outcome, first, |xs| + m) == [] && Accepted(ys, outcome, first + |xs|, m) == []
  {
    assert Accepted(xs + ys, outcome, first, |xs| + m) == [];
    assert Accepted(ys, outcome, first + |xs|, m) == [];
  }

  /** The state after the first `n` adds of `rows`, started from writer
      documents `p0`, reader snapshot `c0` and events `e0`: a corruption
      anywhere among them leaves writer and readers starting from an empty
      index; the writer then holds the documents of the rows written after the
      last corruption, in order; the events are those the adds left behind. */
  ghost predicate AddRun(p0: seq<Document>, c0: seq<Document>, e0: seq<Event>,
                         rows: seq<Row>, n: nat, outcome: nat -> WriteOutcome, first: nat,
                         p: seq<Document>, c: seq<Document>, e: seq<Event>)
    requires n <= |rows|
  {
    p == (if SomeCorrupted(outcome, first, n) then [] else p0) + DocumentsOf(Accepted(rows, outcome, first, n)) &&
    c == (if SomeCorrupted(outcome, first, n) then [] else c0) &&
    e == e0 + AddEvents(outcome, first, n)
  }

  /** A written add appends the row's document. */
  lemma AddRunWritten(p0: seq<Document>, c0: seq<Document>, e0: seq<Event>,
                      rows: seq<Row>, i: nat, outcome: nat -> WriteOutcome, first: nat,
                      p: seq<Document>, c: seq<Document>, e: seq<Event>)
    requires i < |rows| && outcome(first + i).Written?
    requires AddRun(p0, c0, e0, rows, i, outcome, first, p, c, e)
    ensures AddRun(p0, c0, e0, rows, i + 1, outcome, first, p + [ToDocument(rows[i])], c, e)
  {
    AcceptedWritten(rows, outcome, first, i + 1);
    DocumentsOfConcat(Accepted(rows, outcome, first, i), [rows[i]]);
  }

  /** An add that fails with an I/O error only records the notice. */
  lemma AddRunFailed(p0: seq<Document>, c0: seq<Document>, e0: seq<Event>,
                     rows: seq<Row>, i: nat, outcome: nat -> WriteOutcome, first: nat,
                     p: seq<Document>, c: seq<Document>, e: seq<Event>)
    requires i < |rows| && outcome(first + i).IoFailure?
    requires AddRun(p0, c0, e0, rows, i, outcome, first, p, c, e)
    ensures AddRun(p0, c0, e0, rows, i + 1, outcome, first, p, c,
                   e + [FailureNotice(AddFailureText, outcome(first + i).message)])
  {
    assert Accepted(rows, outcome, first, i + 1) == Accepted(rows, outcome, first, i);
  }

  /** An add that meets a corrupt index leaves the index empty. */
  lemma AddRunCorrupted(p0: seq<Document>, c0: seq<Document>, e0: seq<Event>,
                        rows: seq<Row>, i: nat, outcome: nat -> WriteOutcome, first: nat,
                        p: seq<Document>, c: seq<Document>, e: seq<Event>)
    requires i < |rows| && outcome(first + i).Corrupted?
    requires AddRun(p0, c0, e0, rows, i, outcome, first, p, c, e)
    ensures AddRun(p0, c0, e0, rows, i + 1, outcome, first, [], [], e + [CorruptIndexHandled])
  {
    assert Accepted(rows, outcome, first, i + 1) == [];
  }

  /** One add, whatever its outcome, moves the state of a run from its first
      `i` adds to its first `i + 1`. */
  lemma AddRunStep(p0: seq<Document>, c0: seq<Document>, e0: seq<Event>,
                   rows: seq<Row>, i: nat, outcome: nat -> WriteOutcome, first: nat,
                   p: seq<Document>, c: seq<Document>, e: seq<Event>,
                   p': seq<Document>, c': seq<Document>, e': seq<Event>)
    requires i < |rows|
    requires AddRun(p0, c0, e0, rows, i, outcome, first, p, c, e)
    requires outcome(first + i).Written? ==> p' == p + [ToDocument(rows[i])] && c' == c && e' == e
    requires outcome(first + i).IoFailure? ==>
               p' == p && c' == c && e' == e + [FailureNotice(AddFailureText, outcome(first + i).message)]
    requires outcome(first + i).Corrupted? ==> p' == [] && c' == [] && e' == e + [CorruptIndexHandled]
    ensures AddRun(p0, c0, e0, rows, i + 1, outcome, first, p', c', e')
  {
    match outcome(first + i)
    case Written => AddRunWritten(p0, c0, e0, rows, i, outcome, first, p, c, e);
    case IoFailure(_) => AddRunFailed(p0, c0, e0, rows, i, outcome, first, p, c, e);
    case Corrupted => AddRunCorrupted(p0, c0, e0, rows, i, outcome, first, p, c, e);
  }

  /** A run whose every add is written meets no corruption, leaves no event
      and keeps every row. */
  lemma WrittenRun(p0: seq<Document>, c0: seq<Document>, e0: seq<Event>,
                    rows: seq<Row>, outcome: nat -> WriteOutcome, first: nat,
                    p: seq<Document>, c: seq<Document>, e: seq<Event>)
    requires forall j :: first <= j < first + |rows| ==> outcome(j).Written?
    requires AddRun(p0, c0, e0, rows, |rows|, outcome, first, p, c, e)
    ensures p == p0 + DocumentsOf(rows) && c == c0 && e == e0
  {
    SomeCorruptedMeans(outcome, first, |rows|);
    AddEventsKinds(outcome, first, |rows|);
    AcceptedAllWritten(rows, outcome, first, |rows|);
    assert rows[..|rows|] == rows;
  }

  /** One window of a rebuild, whatever the writer answers: if before it the
      writer held the documents `Accepted` keeps of the `n` rows added so far
      and the events were those of their adds, the same holds after it. */
  lemma ReindexWindow(added: seq<Row>, docs: seq<Row>, n: nat, outcome: nat -> WriteOutcome,
                      e0: seq<Event>, c0: seq<Document>, p: seq<Document>, c: seq<Document>, e: seq<Event>)
    requires n == |added|
    requires AddRun(DocumentsOf(Accepted(added, outcome, 0, n)), c0, e0 + AddEvents(outcome, 0, n),
                    docs, |docs|, outcome, n, p, c, e)
    ensures p == DocumentsOf(Accepted(added + docs, outcome, 0, n + |docs|))
    ensures e == e0 + AddEvents(outcome, 0, n + |docs|)
  {
    WindowDocuments(added, docs, n, outcome, p);
    WindowEvents(outcome, n, |docs|, e0, e);
  }

  /** The documents half of `ReindexWindow`. */
  lemma WindowDocuments(added: seq<Row>, docs: seq<Row>, n: nat, outcome: nat -> WriteOutcome, p: seq<Document>)
    requires n == |added|
    requires p == (if SomeCorrupted(outcome, n, |docs|) then [] else DocumentsOf(Accepted(added, outcome, 0, n))) +
                  DocumentsOf(Accepted(docs, outcome, n, |docs|))
    ensures p == DocumentsOf(Accepted(added + docs, outcome, 0, n + |docs|))
  {
    var m := |docs|;
    var kept := Accepted(docs, outcome, n, m);
    var before := if SomeCorrupted(outcome, n, m) then [] else Accepted(added, outcome, 0, n);
    AcceptedConcat(added, docs, outcome, 0, m);
    assert Accepted(added + docs, outcome, 0, n + m) == before + kept;
    assert DocumentsOf(before) == if SomeCorrupted(outcome, n, m) then [] else DocumentsOf(Accepted(added, outcome, 0, n));
    DocumentsOfConcat(before, kept);
  }

  /** The events half of `ReindexWindow`. */
  lemma WindowEvents(outcome: nat -> WriteOutcome, n: nat, m: nat, e0: seq<Event>, e: seq<Event>)
    requires e == e0 + AddEvents(outcome, 0, n) + AddEvents(outcome, n, m)
    ensures e == e0 + AddEvents(outcome, 0, n + m)
  {
    AddEventsConcat(outcome, 0, n, m);
  }

  /** A rebuild whose every add is written holds exactly the documents of the
      rows it added and leaves no event. */
  lemma WrittenRebuild(added: seq<Row>, n: nat, outcome: nat -> WriteOutcome, e0: seq<Event>,
                       p: seq<Document>, e: seq<Event>)
    requires n == |added|
    requires p == DocumentsOf(Accepted(added, outcome, 0, n))
    requires e == e0 + AddEvents(outcome, 0, n)
    ensures (forall j :: 0 <= j < n ==> outcome(j).Written?) ==> p == DocumentsOf(added) && e == e0
  {
    if forall j :: 0 <= j < n ==> outcome(j).Written? {
      AcceptedAllWritten(added, outcome, 0, n);
      assert added[..n] == added;
      AddEventsKinds(outcome, 0, n);
      assert e0 + [] == e0;
    }
  }

  /** What a rebuild adds: with rows inserted meanwhile, strictly ascending ids
      and every row present at the start; without, exactly the store in id
      order, in CeilDiv(N) windows. */
  lemma ReindexOutcome(store: seq<Row>, growth: seq<seq<Row>>)
    ensures DistinctIds(store + Flatten(growth)) ==>
              Ascending(Flatten(ScanWindows(store, growth, None))) &&
              forall r :: r in store ==> r in Flatten(ScanWindows(store, growth, None))
    ensures DistinctIds(store) && (forall i :: 0 <= i < |growth| ==> growth[i] == []) ==>
              Flatten(ScanWindows(store, growth, None)) == SortById(store) &&
              |Flatten(ScanWindows(store, growth, None))| == |store| &&
              |ScanWindows(store, growth, None)| == CeilDiv(|store|)
  {
    if DistinctIds(store + Flatten(growth)) {
      ScanCoversStore(store, growth);
    }
    if DistinctIds(store) && forall i :: 0 <= i < |growth| ==> growth[i] == [] {
      ScanOfUnchangedStore(store, growth);
    }
  }

  class VulnerableSoftwareIndexer {
    var pending: seq<Document>
    var committed: seq<Document>
    var events: seq<Event>

    /** The writer opens on whatever index is already stored, `initial`. */
    constructor (initial: seq<Document>)
      ensures pending == initial && committed == initial && events == []
    {
      pending, committed, events := initial, initial, [];
    }

    /** Assumed contract of the index manager's commit: publishes everything
        the writer holds. */
    method Commit()
      modifies this
      ensures committed == pending && pending == old(pending) && events == old(events)
    {
      committed := pending;
    }

    /** Assumed contract of the index manager's rebuild preparation: the writer
        drops every document; readers keep the last committed snapshot. */
    method ClearIndex()
      modifies this
      ensures pending == [] && committed == old(committed) && events == old(events)
    {
      pending := [];
    }

    /** Assumed contract of the index manager's corruption handler: the index
        is recreated empty, for writer and readers alike, and the recovery is
        recorded. */
    method HandleCorruptIndex()
      modifies this
      ensures pending == [] && committed == [] && events == old(events) + [CorruptIndexHandled]
    {
      pending, committed := [], [];
      events := events + [CorruptIndexHandled];
    }

    /** Appends the row's document (never replacing one with the same uuid).
        An I/O failure is reported by a notification and a corruption goes to
        the handler; neither reaches the caller. Readers see nothing new until
        a commit. */
    method Add(vs: Row, outcome: WriteOutcome)
      modifies this
      ensures outcome.Written? ==>
                pending == old(pending) + [ToDocument(vs)] && committed == old(committed) && events == old(events)
      ensures outcome.IoFailure? ==>
                pending == old(pending) && committed == old(committed) &&
                events == old(events) + [FailureNotice(AddFailureText, outcome.message)]
      ensures outcome.Corrupted? ==>
                pending == [] && committed == [] && events == old(events) + [CorruptIndexHandled]
    {
      var doc := ToDocument(vs);
      match outcome
      case Written =>
        pending := pending + [doc];
      case Corrupted =>
        HandleCorruptIndex();
      case IoFailure(message) =>
        events := events + [FailureNotice(AddFailureText, message)];
    }

    /** Deletes every document whose uuid term is the row's uuid and keeps all
        others; failures are handled as in `Add`. */
    method Remove(vs: Row, outcome: WriteOutcome)
      modifies this
      ensures outcome.Written? ==>
                pending == DeleteByTerm(old(pending), UuidField, vs.uuid) &&
                committed == old(committed) && events == old(events)
      ensures outcome.IoFailure? ==>
                pending == old(pending) && committed == old(committed) &&
                events == old(events) + [FailureNotice(RemoveFailureText, outcome.message)]
      ensures outcome.Corrupted? ==>
                pending == [] && committed == [] && events == old(events) + [CorruptIndexHandled]
    {
      match outcome
      case Written =>
        pending := DeleteByTerm(pending, UuidField, vs.uuid);
      case Corrupted =>
        HandleCorruptIndex();
      case IoFailure(message) =>
        events := events + [FailureNotice(RemoveFailureText, message)];
    }

    /** `docs.forEach(this::add)`: the n-th add of the run meets writer
        outcome `outcome(n)`; `first` is the number of adds already done. */
    method AddAll(docs: seq<Row>, outcome: nat -> WriteOutcome, first: nat)
      modifies this
      ensures AddRun(old(pending), old(committed), old(events), docs, |docs|, outcome, first, pending, committed, events)
      ensures (forall j :: first <= j < first + |docs| ==> outcome(j).Written?) ==>
                pending == old(pending) + DocumentsOf(docs) && committed == old(committed) && events == old(events)
    {
      for i := 0 to |docs|
        invariant AddRun(old(pending), old(committed), old(events), docs, i, outcome, first,
                         pending, committed, events)
      {
        ghost var p, c, e := pending, committed, events;
        Add(docs[i], outcome(first + i));
        AddRunStep(old(pending), old(committed), old(events), docs, i, outcome, first,
                   p, c, e, pending, committed, events);
      }
      if forall j :: first <= j < first + |docs| ==> outcome(j).Written? {
        WrittenRun(old(pending), old(committed), old(events), docs, outcome, first, pending, committed, events);
      }
    }

    /** One pass of the rebuild loop's body: the window's rows are added, with
        the n-th add of the rebuild meeting writer outcome `outcome(n)`, and
        then committed. */
    method IndexWindow(docs: seq<Row>, outcome: nat -> WriteOutcome, ghost added: seq<Row>, n: nat,
                       ghost added': seq<Row>, n': nat, ghost e0: seq<Event>)
      requires n == |added| && added' == added + docs && n' == n + |docs|
      requires pending == DocumentsOf(Accepted(added, outcome, 0, n))
      requires events == e0 + AddEvents(outcome, 0, n)
      modifies this
      ensures pending == DocumentsOf(Accepted(added', outcome, 0, n'))
      ensures events == e0 + AddEvents(outcome, 0, n')
      ensures committed == pending
    {
      ghost var c0 := committed;
      AddAll(docs, outcome, n);
      ReindexWindow(added, docs, n, outcome, e0, c0, pending, committed, events);
      Commit();
    }

    /** Rebuilds the index from the store, one window of at most `PageSize`
        rows per fetch, one commit per window, until a fetch comes back empty.
        Rows inserted concurrently are modelled by `growth`: `growth[k]` joins
        the store just after fetch k + 1. The ghost results record the rows
        passed to add, the cursor of every fetch and the number of commits;
        they are those of `ScanWindows`, whose properties are proved in the
        `Scan` module. The n-th add of the rebuild meets writer outcome
        `outcome(n)`. */
    method Reindex(store: seq<Row>, growth: seq<seq<Row>>, outcome: nat -> WriteOutcome)
      returns (indexedDocs: nat, ghost added: seq<Row>, ghost cursors: seq<Option<nat>>, ghost commits: nat)
      modifies this
      ensures added == Flatten(ScanWindows(store, growth, None))
      ensures commits == |ScanWindows(store, growth, None)|
      ensures cursors == CursorsOf(None, ScanWindows(store, growth, None))
      ensures indexedDocs == |added|
      ensures pending == DocumentsOf(Accepted(added, outcome, 0, indexedDocs))
      ensures events == old(events) + AddEvents(outcome, 0, indexedDocs)
      ensures committed == if commits == 0 then old(committed) else pending
      ensures (forall j :: 0 <= j < indexedDocs ==> outcome(j).Written?) ==>
                pending == DocumentsOf(added) && events == old(events)
      ensures DistinctIds(store + Flatten(growth)) ==>
                Ascending(added) && forall r :: r in store ==> r in added
      ensures DistinctIds(store) && (forall i :: 0 <= i < |growth| ==> growth[i] == []) ==>
                added == SortById(store) && indexedDocs == |store| && commits == CeilDiv(|store|)
    {
      ClearIndex();
      indexedDocs, added, cursors, commits := IndexWindows(store, growth, outcome);
      ReindexOutcome(store, growth);
      WrittenRebuild(added, indexedDocs, outcome, old(events), pending, events);
    }

    /** The loop of the rebuild, started on a cleared writer: fetch a window,
        add its rows, commit, and fetch again from the window's last id, until
        a fetch comes back empty. */
    method IndexWindows(store: seq<Row>, growth: seq<seq<Row>>, outcome: nat -> WriteOutcome)
      returns (indexedDocs: nat, ghost added: seq<Row>, ghost cursors: seq<Option<nat>>, ghost commits: nat)
      requires pending == []
      modifies this
      ensures added == Flatten(ScanWindows(store, growth, None))
      ensures commits == |ScanWindows(store, growth, None)|
      ensures cursors == CursorsOf(None, ScanWindows(store, growth, None))
      ensures indexedDocs == |added|
      ensures pending == DocumentsOf(Accepted(added, outcome, 0, indexedDocs))
      ensures events == old(events) + AddEvents(outcome, 0, indexedDocs)
      ensures committed == if commits == 0 then old(committed) else pending
    {
      indexedDocs, added, cursors, commits := 0, [], [None], 0;
      ghost var windows: seq<seq<Row>> := [];
      var k: nat := 0;
      var current := store;
      var lastId: Option<nat> := None;
      ScanStart(store, growth);
      var docs := FetchNext(current, lastId);
      while docs != []
        invariant ScanState(store, growth, k, current, lastId, windows, added, cursors, commits)
        invariant docs == FetchNext(current, lastId)
        invariant indexedDocs == |added|
        invariant pending == DocumentsOf(Accepted(added, outcome, 0, indexedDocs))
        invariant events == old(events) + AddEvents(outcome, 0, indexedDocs)
        invariant committed == if commits == 0 then old(committed) else pending
        decreases |ScanWindows(current, growth[k..], lastId)|
      {
        ghost var added' := added + docs;
        var indexed' := indexedDocs + |docs|;
        IndexWindow(docs, outcome, added, indexedDocs, added', indexed', old(events));
        ScanAdvance(store, growth, k, current, lastId, windows, added, cursors, commits);
        indexedDocs := indexed';
        windows := windows + [docs];
        added := added';
        commits := commits + 1;
        current := NextStore(current, growth[k..]);
        k := Min(k + 1, |growth|);
        lastId := NextCursor(docs);
        cursors := cursors + [lastId];
        docs := FetchNext(current, lastId);
      }
      ScanDone(store, growth, k, current, lastId, windows, added, cursors, commits);
    }
  }
}

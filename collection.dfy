/**
  The top-level loop of both scripts (analyse_fichier_HAR.py lines 179-184,
  version_sujet/analyse_fichier_HAR.py lines 223-229): analyse every entry in
  turn and append each record that is not `None` to `my_data`. An exception
  raised while analysing an entry is not caught, so it ends the script there.
*/
module Collection {
  import opened Geolocation
  import opened Har

  /** How the loop ends: with the collected records, or stopped by the exception raised at entry `at`. */
  datatype Outcome = Completed(data: seq<Record>) | Aborted(at: nat)

  /** The finished analysis, with its databases fixed, as a function of the entry alone. */
  function Analyser(dbs: Databases): Entry -> Analysis {
    e => AnalyseEntry(dbs, e)
  }

  /** What the loop has produced after the entries `entries`, one step per entry. */
  function Collected(analyse: Entry -> Analysis, entries: seq<Entry>): Outcome
    decreases |entries|
  {
    if entries == [] then Completed([])
    else
      var before := Collected(analyse, entries[..|entries| - 1]);
      if before.Aborted? then before
      else
        match analyse(entries[|entries| - 1])
        case Blocked => before
        case Row(rec) => Completed(before.data + [rec])
        case IndexError => Aborted(|entries| - 1)
  }

  /** The records of the entries that analyse to a record, in entry order: a filter written independently of the loop. */
  function RowsOf(analyse: Entry -> Analysis, entries: seq<Entry>): (rows: seq<Record>)
    ensures |rows| <= |entries|
    decreases |entries|
  {
    if entries == [] then []
    else
      var first := analyse(entries[0]);
      (if first.Row? then [first.record] else []) + RowsOf(analyse, entries[1..])
  }

  /** No entry raises. */
  predicate NoError(analyse: Entry -> Analysis, entries: seq<Entry>) {
    forall i :: 0 <= i < |entries| ==> !analyse(entries[i]).IndexError?
  }

  /** The loop of the scripts, appending to `data` as it goes. */
  method CollectRecords(analyse: Entry -> Analysis, entries: seq<Entry>) returns (c: Outcome)
    ensures c == Collected(analyse, entries)
  {
    var data: seq<Record> := [];
    var i := 0;
    while i < |entries|
      invariant 0 <= i <= |entries|
      invariant Collected(analyse, entries[..i]) == Completed(data)
    {
      assert entries[..i + 1][..i] == entries[..i];
      var a := analyse(entries[i]);
      match a {
        case IndexError =>
          assert Collected(analyse, entries[..i + 1]) == Aborted(i);
          CollectedAbortedPrefix(analyse, entries, i + 1);
          return Aborted(i);
        case Blocked =>
        case Row(rec) =>
          data := data + [rec];
      }
      i := i + 1;
    }
    assert entries[..i] == entries;
    return Completed(data);
  }

  /** Filtering distributes over concatenation. */
  lemma {:induction false} RowsOfAppend(analyse: Entry -> Analysis, a: seq<Entry>, b: seq<Entry>)
    ensures RowsOf(analyse, a + b) == RowsOf(analyse, a) + RowsOf(analyse, b)
    decreases |a|
  {
    if a == [] {
      assert a + b == b;
    } else {
      assert (a + b)[0] == a[0];
      assert (a + b)[1..] == a[1..] + b;
      RowsOfAppend(analyse, a[1..], b);
      var head := if analyse(a[0]).Row? then [analyse(a[0]).record] else [];
      assert head + (RowsOf(analyse, a[1..]) + RowsOf(analyse, b))
          == (head + RowsOf(analyse, a[1..])) + RowsOf(analyse, b);
    }
  }

  /**
    When no entry raises, the loop completes with exactly the records of the
    entries that are not `None`, in entry order.
  */
  lemma {:induction false} CollectedIsRowsOf(analyse: Entry -> Analysis, entries: seq<Entry>)
    requires NoError(analyse, entries)
    ensures Collected(analyse, entries) == Completed(RowsOf(analyse, entries))
    decreases |entries|
  {
    if entries != [] {
      var n := |entries|;
      var init := entries[..n - 1];
      CollectedIsRowsOf(analyse, init);
      assert init + [entries[n - 1]] == entries;
      RowsOfAppend(analyse, init, [entries[n - 1]]);
      assert [entries[n - 1]][1..] == [];
    }
  }

  /** Once the loop has stopped on a prefix of the entries, the later entries change nothing. */
  lemma {:induction false} CollectedAbortedPrefix(analyse: Entry -> Analysis, entries: seq<Entry>, k: nat)
    requires k <= |entries| && Collected(analyse, entries[..k]).Aborted?
    ensures Collected(analyse, entries) == Collected(analyse, entries[..k])
    decreases |entries| - k
  {
    if k < |entries| {
      var n := |entries|;
      assert entries[..n - 1][..k] == entries[..k];
      CollectedAbortedPrefix(analyse, entries[..n - 1], k);
    } else {
      assert entries[..k] == entries;
    }
  }

  /** The loop stops at entry `i` exactly when that entry is the first one that raises. */
  lemma {:induction false} AbortedAtFirstError(analyse: Entry -> Analysis, entries: seq<Entry>, i: nat)
    ensures Collected(analyse, entries) == Aborted(i) <==>
      && i < |entries|
      && analyse(entries[i]).IndexError?
      && NoError(analyse, entries[..i])
    decreases |entries|
  {
    if entries != [] {
      var n := |entries|;
      var init := entries[..n - 1];
      var before := Collected(analyse, init);
      AbortedAtFirstError(analyse, init, i);
      if i < n - 1 {
        assert init[..i] == entries[..i];
      }
      if before.Aborted? {
        var j := before.at;
        AbortedAtFirstError(analyse, init, j);
        assert init[..j] == entries[..j];
        if i < j {
          assert entries[..j][i] == entries[i];
        } else if j < i < n {
          assert entries[..i][j] == entries[j];
        }
      } else if i == n - 1 {
        assert init == entries[..i];
        if analyse(entries[i]).IndexError? && !NoError(analyse, init) {
          var k :| 0 <= k < |init| && analyse(init[k]).IndexError?;
          CollectedIsNotCompleted(analyse, init, k);
        }
      }
    }
  }

  /** An entry that raises keeps the loop from completing. */
  lemma {:induction false} CollectedIsNotCompleted(analyse: Entry -> Analysis, entries: seq<Entry>, k: nat)
    requires k < |entries| && analyse(entries[k]).IndexError?
    ensures Collected(analyse, entries).Aborted?
    decreases |entries|
  {
    var n := |entries|;
    if k < n - 1 {
      var init := entries[..n - 1];
      CollectedIsNotCompleted(analyse, init, k);
    }
  }

  /**
    The collected list holds every record at its entry's place: the records
    of the entries before it, then the record itself, then those after it.
  */
  lemma {:induction false} RowsOfSplitAt(analyse: Entry -> Analysis, entries: seq<Entry>, i: nat)
    requires i < |entries| && analyse(entries[i]).Row?
    ensures RowsOf(analyse, entries) ==
      RowsOf(analyse, entries[..i]) + [analyse(entries[i]).record] + RowsOf(analyse, entries[i + 1..])
  {
    assert entries == entries[..i] + ([entries[i]] + entries[i + 1..]);
    RowsOfAppend(analyse, entries[..i], [entries[i]] + entries[i + 1..]);
    assert ([entries[i]] + entries[i + 1..])[1..] == entries[i + 1..];
  }

  /** Every collected record comes from an entry that analyses to it. */
  lemma {:induction false} RowsOfFromEntries(analyse: Entry -> Analysis, entries: seq<Entry>, r: Record)
    requires r in RowsOf(analyse, entries)
    ensures exists i :: 0 <= i < |entries| && analyse(entries[i]) == Row(r)
    decreases |entries|
  {
    var first := analyse(entries[0]);
    if !(first.Row? && first.record == r) {
      RowsOfFromEntries(analyse, entries[1..], r);
      var i :| 0 <= i < |entries[1..]| && analyse(entries[1..][i]) == Row(r);
      assert entries[i + 1] == entries[1..][i];
    }
  }

  /**
    With host names that all have a dot, the finished script's loop completes,
    and every record it collects is well formed.
  */
  lemma {:induction false} FinishedScriptCollects(dbs: Databases, entries: seq<Entry>)
    requires forall i :: 0 <= i < |entries| && entries[i].serverAddress.Some? ==> '.' in entries[i].host
    ensures Collected(Analyser(dbs), entries).Completed?
    ensures forall r :: r in Collected(Analyser(dbs), entries).data ==> WellFormed(r)
  {
    var analyse := Analyser(dbs);
    assert NoError(analyse, entries) by {
      forall i | 0 <= i < |entries| ensures !analyse(entries[i]).IndexError? {
        assert analyse(entries[i]) == AnalyseEntry(dbs, entries[i]);
      }
    }
    CollectedIsRowsOf(analyse, entries);
    RowsWellFormed(dbs, entries);
  }

  /** Every record the finished analysis produces is well formed. */
  lemma {:induction false} RowsWellFormed(dbs: Databases, entries: seq<Entry>)
    ensures forall r :: r in RowsOf(Analyser(dbs), entries) ==> WellFormed(r)
    decreases |entries|
  {
    if entries != [] {
      RowsWellFormed(dbs, entries[1..]);
      assert Analyser(dbs)(entries[0]) == AnalyseEntry(dbs, entries[0]);
    }
  }

  /** The number of entries that have a server address. */
  function Unblocked(entries: seq<Entry>): (n: nat)
    ensures n <= |entries|
  {
    if entries == [] then 0
    else (if entries[0].serverAddress.Some? then 1 else 0) + Unblocked(entries[1..])
  }

  /**
    The handout's loop always completes, with one record of initial values
    per entry that has a server address.
  */
  lemma {:induction false} HandoutCollects(entries: seq<Entry>)
    ensures Collected(HandoutAnalyseEntry, entries) ==
      Completed(seq(Unblocked(entries), _ => DefaultRecord))
    decreases |entries|
  {
    assert NoError(HandoutAnalyseEntry, entries);
    CollectedIsRowsOf(HandoutAnalyseEntry, entries);
    HandoutRows(entries);
  }

  lemma {:induction false} HandoutRows(entries: seq<Entry>)
    ensures RowsOf(HandoutAnalyseEntry, entries) == seq(Unblocked(entries), _ => DefaultRecord)
    decreases |entries|
  {
    if entries != [] {
      HandoutRows(entries[1..]);
    }
  }
}

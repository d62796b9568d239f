/** `ORDER BY time LIMIT n`: any choice of the oldest rows, with ties left open. */
module Batches {
  import opened Basics
  import opened History

  // A batch of `limit` rows (or all, if fewer), none newer than a row left behind.
  predicate IsOldest<T(==)>(batch: set<T>, rows: set<T>, limit: nat, time: T -> int) {
    && batch <= rows
    && |batch| == Min(limit, |rows|)
    && forall b <- batch, r <- rows - batch :: time(b) <= time(r)
  }

  function RunTime(t: Tables): int -> int {
    (id: int) => if id in t.runs then t.runs[id].startedAt else 0
  }

  function RowTime(): Child -> int {
    (k: Child) => k.observedAt
  }

  // A short batch is the whole set.
  lemma ShortBatchIsAll<T>(batch: set<T>, rows: set<T>, limit: nat, time: T -> int)
    requires IsOldest(batch, rows, limit, time)
    requires |batch| < limit
    ensures batch == rows
  {
    SubsetOfEqualSize(batch, rows);
  }

  // Some batch always exists.
  lemma {:induction false} OldestExists<T(!new)>(rows: set<T>, limit: nat, time: T -> int)
    ensures exists batch :: IsOldest(batch, rows, limit, time)
    decreases limit
  {
    if limit == 0 || rows == {} {
      assert IsOldest({}, rows, limit, time);
    } else {
      var first := Earliest(rows, time);
      OldestExists(rows - {first}, limit - 1, time);
      var rest :| IsOldest(rest, rows - {first}, limit - 1, time);
      assert rows - {first} - rest == rows - (rest + {first});
      assert IsOldest(rest + {first}, rows, limit, time);
    }
  }

  lemma {:induction false} Earliest<T>(rows: set<T>, time: T -> int) returns (first: T)
    requires rows != {}
    ensures first in rows && forall r <- rows :: time(first) <= time(r)
    decreases |rows|
  {
    var x :| x in rows;
    if rows == {x} {
      first := x;
    } else {
      assert x !in rows - {x} && rows == rows - {x} + {x};
      var y := Earliest(rows - {x}, time);
      first := if time(x) <= time(y) then x else y;
    }
  }

  // What one call of the raw-payload delete removes: ids may repeat, so it can exceed the batch.
  lemma RawBatchExact(t: Tables, batch: set<Child>, cutoff: int, limit: nat)
    requires IsOldest(batch, ExpiredRaws(t, cutoff), limit, RowTime())
    ensures var after := DeleteRaws(t, Ids(batch), cutoff);
      var deleted := ExpiredRaws(t, cutoff) - ExpiredRaws(after, cutoff);
      && batch <= deleted
      && t.kids - after.kids == deleted
      && (|deleted| < limit ==> ExpiredRaws(after, cutoff) == {})
  {
    var expired := ExpiredRaws(t, cutoff);
    var after := DeleteRaws(t, Ids(batch), cutoff);
    var deleted := expired - ExpiredRaws(after, cutoff);
    assert forall k <- batch :: k.id in Ids(batch);
    SubsetOfEqualSize(batch, deleted);
    if |deleted| < limit {
      ShortBatchIsAll(batch, expired, limit, RowTime());
    }
  }

  // The rows a raw delete matches include its batch; with fewer than the limit they are all there are.
  lemma MatchedHoldsBatch(t: Tables, batch: set<Child>, cutoff: int, limit: nat)
    requires IsOldest(batch, ExpiredRaws(t, cutoff), limit, RowTime())
    ensures batch <= Matched(t, batch, cutoff) <= ExpiredRaws(t, cutoff)
    ensures |Matched(t, batch, cutoff)| < limit ==> Matched(t, batch, cutoff) == ExpiredRaws(t, cutoff)
  {
    var rows := Matched(t, batch, cutoff);
    assert forall k <- batch :: k.id in Ids(batch);
    SubsetOfEqualSize(batch, rows);
    if |rows| < limit {
      ShortBatchIsAll(batch, ExpiredRaws(t, cutoff), limit, RowTime());
    }
  }

  // The batch is made of the oldest expired payloads, and the run batch of the oldest expired runs.
  lemma BatchesAreOldest(t: Tables, batch: set<Child>, ids: set<int>, cutoff: int, limit: nat)
    requires IsOldest(batch, ExpiredRaws(t, cutoff), limit, RowTime())
    requires IsOldest(ids, ExpiredRuns(t, cutoff), limit, RunTime(t))
    ensures forall b <- batch, k <- t.kids :: k.data.Raw? && k.observedAt < b.observedAt ==> k in batch
    ensures forall i <- ids, r <- t.runs :: i in t.runs && (t.runs[r].startedAt < t.runs[i].startedAt ==> r in ids)
  {
    forall b <- batch, k <- t.kids | k.data.Raw? && k.observedAt < b.observedAt
      ensures k in batch
    {
      assert k in ExpiredRaws(t, cutoff) && RowTime()(k) < RowTime()(b);
    }
    forall i <- ids, r <- t.runs | t.runs[r].startedAt < t.runs[i].startedAt
      ensures r in ids
    {
      assert i in ExpiredRuns(t, cutoff) && r in ExpiredRuns(t, cutoff) && RunTime(t)(r) < RunTime(t)(i);
    }
  }

  lemma DeletedRowsLeave(t: Tables, rows: set<Child>, cutoff: int)
    ensures ExpiredRaws(DeleteRows(t, rows), cutoff) == ExpiredRaws(t, cutoff) - rows
  {
  }

  // With one row per id the call removes the batch and nothing else.
  lemma RawBatchWithUniqueIds(t: Tables, batch: set<Child>, cutoff: int, limit: nat)
    requires IsOldest(batch, ExpiredRaws(t, cutoff), limit, RowTime())
    requires forall a <- ExpiredRaws(t, cutoff), b <- ExpiredRaws(t, cutoff) :: a.id == b.id ==> a == b
    ensures ExpiredRaws(DeleteRaws(t, Ids(batch), cutoff), cutoff) == ExpiredRaws(t, cutoff) - batch
  {
    forall k <- ExpiredRaws(t, cutoff)
      ensures k.id in Ids(batch) <==> k in batch
    {
      if k.id in Ids(batch) {
        var b :| b in batch && b.id == k.id;
      }
    }
  }

  lemma RunBatchExact(t: Tables, batch: set<int>, cutoff: int, limit: nat)
    requires IsOldest(batch, ExpiredRuns(t, cutoff), limit, RunTime(t))
    ensures ExpiredRuns(DeleteRuns(t, batch), cutoff) == ExpiredRuns(t, cutoff) - batch
    ensures |ExpiredRuns(DeleteRuns(t, batch), cutoff)| == |ExpiredRuns(t, cutoff)| - |batch|
    ensures |batch| < limit ==> ExpiredRuns(DeleteRuns(t, batch), cutoff) == {}
  {
    var expired := ExpiredRuns(t, cutoff);
    var left := ExpiredRuns(DeleteRuns(t, batch), cutoff);
    DeletedRunsLeave(t, batch, cutoff);
    assert |left| == |expired| - |batch| by {
      assert expired == batch + left;
    }
    if |batch| < limit {
      ShortBatchIsAll(batch, expired, limit, RunTime(t));
    }
  }

  lemma DeletedRunsLeave(t: Tables, ids: set<int>, cutoff: int)
    ensures ExpiredRuns(DeleteRuns(t, ids), cutoff) == ExpiredRuns(t, cutoff) - ids
  {
    var d := DeleteRuns(t, ids);
    assert forall id :: id in d.runs <==> id in t.runs && id !in ids;
    forall id
      ensures id in ExpiredRuns(d, cutoff) <==> id in ExpiredRuns(t, cutoff) - ids
    {
    }
  }
}

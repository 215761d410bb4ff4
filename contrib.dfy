/** The contributor table of contrib.go: per-handle records, the two-step
    "zero the new counts, then publish them" update, the rate bookkeeping
    of the table's HTTP client, and the weekly-statistics fold. */
module Contrib {
  import opened GitHub

  /** One contributor. The source's `Updated` timestamp is never written
      and is not modelled. */
  datatype Record = Record(name: string, gHandle: string, commits: int, newCommits: int)

  /** NewRecord: a record with the given name, handle and published count;
      its in-progress count starts at Go's zero value. */
  function NewRecord(name: string, gHandle: string, commits: int): (r: Record)
    ensures r.name == name && r.gHandle == gHandle
    ensures r.commits == commits && r.newCommits == 0
  {
    Record(name, gHandle, commits, 0)
  }

  /** Every row is stored under its own handle. */
  ghost predicate KeyedByHandle(m: map<string, Record>)
  {
    forall h :: h in m ==> m[h].gHandle == h
  }

  /** The rows after every in-progress count is reset. */
  function Zeroed(m: map<string, Record>): map<string, Record>
  {
    map h | h in m :: m[h].(newCommits := 0)
  }

  /** The rows after every in-progress count is published as the count. */
  function Swapped(m: map<string, Record>): map<string, Record>
  {
    map h | h in m :: m[h].(commits := m[h].newCommits)
  }

  /** The rows after adding each record of `recs`, first to last. */
  function AddAll(m: map<string, Record>, recs: seq<Record>): map<string, Record>
    decreases |recs|
  {
    if recs == [] then m else AddAll(m[recs[0].gHandle := recs[0]], recs[1..])
  }

  /** One more addition after a run of them is one more map update, so a
      caller's sequence of Add calls is AddAll of the records added. */
  lemma {:induction false} AddAllSnoc(m: map<string, Record>, recs: seq<Record>, r: Record)
    ensures AddAll(m, recs + [r]) == AddAll(m, recs)[r.gHandle := r]
    decreases |recs|
  {
    if recs == [] {
      assert recs + [r] == [r];
      assert [r][1..] == [];
    } else {
      assert (recs + [r])[1..] == recs[1..] + [r];
      AddAllSnoc(m[recs[0].gHandle := recs[0]], recs[1..], r);
    }
  }

  /** A handle is in the table after a run of additions iff it was there
      before or one of the added records carries it. */
  lemma {:induction false} AddAllKeys(m: map<string, Record>, recs: seq<Record>, h: string)
    ensures h in AddAll(m, recs) <==> h in m || exists i :: 0 <= i < |recs| && recs[i].gHandle == h
    decreases |recs|
  {
    if recs != [] {
      AddAllKeys(m[recs[0].gHandle := recs[0]], recs[1..], h);
      if h in m || exists i :: 0 <= i < |recs| && recs[i].gHandle == h {
        if h !in m && recs[0].gHandle != h {
          var i :| 0 <= i < |recs| && recs[i].gHandle == h;
          assert recs[1..][i - 1].gHandle == h;
        }
      }
      if exists i :: 0 <= i < |recs[1..]| && recs[1..][i].gHandle == h {
        var i :| 0 <= i < |recs[1..]| && recs[1..][i].gHandle == h;
        assert recs[i + 1].gHandle == h;
      }
    }
  }

  /** Later additions overwrite earlier ones: the row of a handle is the last
      record added under it. */
  lemma {:induction false} AddAllLastWins(m: map<string, Record>, recs: seq<Record>, i: nat)
    requires i < |recs|
    requires forall j :: i < j < |recs| ==> recs[j].gHandle != recs[i].gHandle
    ensures recs[i].gHandle in AddAll(m, recs)
    ensures AddAll(m, recs)[recs[i].gHandle] == recs[i]
    decreases |recs|
  {
    var m' := m[recs[0].gHandle := recs[0]];
    if i == 0 {
      AddAllUntouched(m', recs[1..], recs[0].gHandle);
    } else {
      forall j | i - 1 < j < |recs[1..]|
        ensures recs[1..][j].gHandle != recs[1..][i - 1].gHandle
      {
        assert recs[1..][j] == recs[j + 1];
      }
      AddAllLastWins(m', recs[1..], i - 1);
    }
  }

  /** Additions under other handles leave a row alone. */
  lemma {:induction false} AddAllUntouched(m: map<string, Record>, recs: seq<Record>, h: string)
    requires h in m
    requires forall j :: 0 <= j < |recs| ==> recs[j].gHandle != h
    ensures h in AddAll(m, recs) && AddAll(m, recs)[h] == m[h]
    decreases |recs|
  {
    if recs != [] {
      AddAllUntouched(m[recs[0].gHandle := recs[0]], recs[1..], h);
    }
  }

  /** Additions keep every row under its own handle, so there is one row per handle. */
  lemma {:induction false} AddAllKeyed(m: map<string, Record>, recs: seq<Record>)
    requires KeyedByHandle(m)
    ensures KeyedByHandle(AddAll(m, recs))
    decreases |recs|
  {
    if recs != [] {
      AddAllKeyed(m[recs[0].gHandle := recs[0]], recs[1..]);
    }
  }

  /** Resetting then publishing discards every earlier published count
      instead of adding to it. */
  lemma ZeroThenSwapClearsCommits(m: map<string, Record>)
    ensures Swapped(Zeroed(m)).Keys == m.Keys
    ensures forall h :: h in m ==> Swapped(Zeroed(m))[h] == m[h].(commits := 0, newCommits := 0)
  {
  }

  /** Publishing twice is the same as publishing once. */
  lemma SwapIdempotent(m: map<string, Record>)
    ensures Swapped(Swapped(m)) == Swapped(m)
  {
  }

  /** The contributor table. */
  class Table {
    var row: map<string, Record>
    var remainingCalls: int
    var resetTime: Time

    ghost predicate Valid()
      reads this
    {
      KeyedByHandle(row)
    }

    /** NewTable: an empty row map; the rate fields hold Go's zero values. */
    constructor ()
      ensures Valid()
      ensures row == map[] && remainingCalls == 0 && resetTime == 0
    {
      row := map[];
      remainingCalls := 0;
      resetTime := 0;
    }

    /** Insert or overwrite the row of `rec.gHandle`. The source always
        returns a nil error, so no error result is modelled. */
    method Add(rec: Record)
      requires Valid()
      modifies this`row
      ensures Valid()
      ensures row == old(row)[rec.gHandle := rec] == AddAll(old(row), [rec])
      ensures row.Keys == old(row).Keys + {rec.gHandle}
      ensures forall h :: h in old(row) && h != rec.gHandle ==> row[h] == old(row)[h]
    {
      row := row[rec.gHandle := rec];
    }

    /** Whether a handle has a row. */
    function Exist(gHandle: string): (ok: bool)
      reads this
      ensures ok <==> gHandle in row
      ensures ok && Valid() ==> row[gHandle].gHandle == gHandle
    {
      gHandle in row
    }

    /** zeroCommits: reset every record's in-progress count. */
    method ZeroCommits()
      requires Valid()
      modifies this`row
      ensures Valid()
      ensures row == Zeroed(old(row))
      ensures row.Keys == old(row).Keys
      ensures forall h :: h in row ==>
        row[h].newCommits == 0 && row[h].commits == old(row)[h].commits &&
        row[h].name == old(row)[h].name && row[h].gHandle == old(row)[h].gHandle
    {
      ghost var orig := row;
      var todo := row.Keys;
      while todo != {}
        invariant todo <= orig.Keys && row.Keys == orig.Keys
        invariant forall h :: h in row ==>
          row[h] == if h in todo then orig[h] else orig[h].(newCommits := 0)
        decreases todo
      {
        var h :| h in todo;
        row := row[h := row[h].(newCommits := 0)];
        todo := todo - {h};
      }
      assert row == Zeroed(orig);
    }

    /** swapToCommits: publish every record's in-progress count. */
    method SwapToCommits()
      requires Valid()
      modifies this`row
      ensures Valid()
      ensures row == Swapped(old(row))
      ensures row.Keys == old(row).Keys
      ensures forall h :: h in row ==>
        row[h].commits == old(row)[h].newCommits && row[h].newCommits == old(row)[h].newCommits &&
        row[h].name == old(row)[h].name && row[h].gHandle == old(row)[h].gHandle
    {
      ghost var orig := row;
      var todo := row.Keys;
      while todo != {}
        invariant todo <= orig.Keys && row.Keys == orig.Keys
        invariant forall h :: h in row ==>
          row[h] == if h in todo then orig[h] else orig[h].(commits := orig[h].newCommits)
        decreases todo
      {
        var h :| h in todo;
        row := row[h := row[h].(commits := row[h].newCommits)];
        todo := todo - {h};
      }
      assert row == Swapped(orig);
    }

    /** Tabulate: one copy of every row, in map order; nothing is filtered
        out and nothing is sorted. */
    method Tabulate() returns (result: seq<Record>)
      requires Valid()
      ensures |result| == |row|
      ensures forall i :: 0 <= i < |result| ==>
        result[i].gHandle in row && row[result[i].gHandle] == result[i]
      ensures forall i, j :: 0 <= i < j < |result| ==> result[i].gHandle != result[j].gHandle
      ensures forall h :: h in row ==> row[h] in result
    {
      result := [];
      var todo := row.Keys;
      while todo != {}
        invariant todo <= row.Keys
        invariant |result| + |todo| == |row|
        invariant forall i :: 0 <= i < |result| ==>
          result[i].gHandle in row && result[i].gHandle !in todo && row[result[i].gHandle] == result[i]
        invariant forall i, j :: 0 <= i < j < |result| ==> result[i].gHandle != result[j].gHandle
        invariant forall h :: h in row && h !in todo ==> row[h] in result
        decreases todo
      {
        var h :| h in todo;
        result := result + [row[h]];
        todo := todo - {h};
      }
    }

    /** UpdateRate: on a failed rate query keep the old values, otherwise
        take the Core class's remaining count and reset time. */
    method UpdateRate(rate: RateResult)
      modifies this`remainingCalls, this`resetTime
      ensures rate.RateErr? ==> remainingCalls == old(remainingCalls) && resetTime == old(resetTime)
      ensures rate.RateOk? ==>
        remainingCalls == rate.limits.core.remaining && resetTime == rate.limits.core.reset
    {
      if rate.RateErr? {
        return;
      }
      remainingCalls := rate.limits.core.remaining;
      resetTime := rate.limits.core.reset;
    }

    /** CallorWait up to its countdown: refresh the rate, then `mustWait`
        tells whether the early return (remaining calls positive) was not
        taken, so that control goes on to the countdown, which may run zero
        times when the reset time has already passed. */
    method CallorWait(rate: RateResult) returns (mustWait: bool)
      modifies this`remainingCalls, this`resetTime
      ensures rate.RateErr? ==> remainingCalls == old(remainingCalls) && resetTime == old(resetTime)
      ensures rate.RateOk? ==>
        remainingCalls == rate.limits.core.remaining && resetTime == rate.limits.core.reset
      ensures !mustWait <==> remainingCalls > 0
    {
      UpdateRate(rate);
      if remainingCalls > 0 {
        return false;
      }
      mustWait := true;
    }
  }

  /** The three summed fields of a week. */
  datatype StatField = Additions | Deletions | Commits

  function Get(w: WeeklyStats, f: StatField): int
  {
    match f
    case Additions => w.additions
    case Deletions => w.deletions
    case Commits => w.commits
  }

  /** The sum of one field over the weeks, added in list order. */
  function Total(weeks: seq<WeeklyStats>, f: StatField): int
  {
    if weeks == [] then 0 else Total(weeks[..|weeks| - 1], f) + Get(weeks[|weeks| - 1], f)
  }

  /** sumStats: every field of the result is that field's total over the weeks. */
  method SumStats(weeks: seq<WeeklyStats>) returns (res: WeeklyStats)
    ensures res.additions == Total(weeks, Additions)
    ensures res.deletions == Total(weeks, Deletions)
    ensures res.commits == Total(weeks, Commits)
    ensures weeks == [] ==> res == WeeklyStats(0, 0, 0)
  {
    res := WeeklyStats(0, 0, 0);
    for i := 0 to |weeks|
      invariant res.additions == Total(weeks[..i], Additions)
      invariant res.deletions == Total(weeks[..i], Deletions)
      invariant res.commits == Total(weeks[..i], Commits)
    {
      var w := weeks[i];
      assert weeks[..i + 1][..i] == weeks[..i];
      res := WeeklyStats(res.additions + w.additions, res.deletions + w.deletions, res.commits + w.commits);
    }
    assert weeks[..|weeks|] == weeks;
  }

  /** The totals of a concatenation are the sums of the totals, so the fold
      can be split at any week. */
  lemma {:induction false} TotalAppend(a: seq<WeeklyStats>, b: seq<WeeklyStats>, f: StatField)
    ensures Total(a + b, f) == Total(a, f) + Total(b, f)
    decreases |b|
  {
    if b == [] {
      assert a + b == a;
    } else {
      assert (a + b)[..|a + b| - 1] == a + b[..|b| - 1];
      TotalAppend(a, b[..|b| - 1], f);
    }
  }
}

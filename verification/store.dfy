/**
 The incremental store: `insert_merged_prs` walks a batch of pull-request
 summaries and, for every number the `pull_request` table does not hold yet,
 downloads the diff, measures it and inserts one row. The table is a sequence
 of rows in insertion order; the diff download is a parameter.
 */
module Store {
  import opened Records
  import Meter

  /** What the diff download yields for a number: the diff text, or a transport
      failure (network error or non-2xx status), which raises and ends the call. */
  datatype Fetched = Diff(text: string) | TransportError

  /** The state of one `insert_merged_prs` call: the table so far, the numbers
      whose diff was requested (in request order), and whether a failed download
      ended the call. Rows inserted before the failure stay, since every insert
      is committed on its own. */
  datatype Run = Run(table: seq<PrRecord>, fetched: seq<int>, aborted: bool)

  /** The existence check `select * from pull_request where number = n`: some
      row carries `number`. */
  predicate Holds(table: seq<PrRecord>, number: int)
    decreases |table|
  {
    |table| > 0 && (table[|table| - 1].number == number || Holds(table[..|table| - 1], number))
  }

  lemma {:induction false} HoldsNumbers(table: seq<PrRecord>, number: int)
    ensures Holds(table, number) <==> number in Numbers(table)
    decreases |table|
  {
    if |table| > 0 {
      var p := table[..|table| - 1];
      HoldsNumbers(p, number);
      assert table == p + [table[|table| - 1]];
      NumbersSnoc(p, table[|table| - 1]);
    }
  }

  /** One iteration of the loop over the batch: existence check, then download,
      measurement and insert for an absent number. */
  function InsertOne(run: Run, pr: PrSummary, fetch: int -> Fetched): Run
  {
    if run.aborted || Holds(run.table, pr.number) then run
    else
      match fetch(pr.number)
      case TransportError => Run(run.table, run.fetched + [pr.number], true)
      case Diff(text) =>
        Run(run.table + [ToRecord(pr, Meter.ZhWordCount(text))], run.fetched + [pr.number], false)
  }

  /** The row `insert_merged_prs` writes for the summary at index `k`. */
  predicate MeasuredRow(batch: seq<PrSummary>, k: int, fetch: int -> Fetched, row: PrRecord)
    requires 0 <= k < |batch|
  {
    && fetch(batch[k].number).Diff?
    && row == ToRecord(batch[k], Meter.ZhWordCount(fetch(batch[k].number).text))
  }

  /** `insert_merged_prs(batch)` applied to `table`: the summaries are handled
      in batch order, and rows present beforehand are kept unchanged, in place. */
  function Ingest(table: seq<PrRecord>, batch: seq<PrSummary>, fetch: int -> Fetched): (r: Run)
    ensures table <= r.table
    decreases |batch|
  {
    if |batch| == 0 then Run(table, [], false)
    else InsertOne(Ingest(table, batch[..|batch| - 1], fetch), batch[|batch| - 1], fetch)
  }

  /** Downloads and new rows go together: one download per new row, in row
      order, plus the failed one when the call aborted; without a failure every
      number of the batch ends up stored. */
  lemma {:induction false} IngestAccounts(table: seq<PrRecord>, batch: seq<PrSummary>, fetch: int -> Fetched)
    ensures Accounted(table, BatchNumbers(batch), fetch, Ingest(table, batch, fetch))
    decreases |batch|
  {
    if |batch| == 0 {
      assert BatchNumbers(batch) == {};
    } else {
      var p := batch[..|batch| - 1];
      IngestAccounts(table, p, fetch);
      BatchNumbersSnoc(batch);
      var r0 := Ingest(table, p, fetch);
      var pr := batch[|batch| - 1];
      HoldsNumbers(r0.table, pr.number);
      if r0.aborted || pr.number in Numbers(r0.table) {
        AccountedSkip(table, BatchNumbers(p), fetch, r0, pr.number);
      } else if fetch(pr.number).TransportError? {
        AccountedAbort(table, BatchNumbers(p), fetch, r0, pr.number);
      } else {
        AccountedAppend(table, BatchNumbers(p), fetch, r0, ToRecord(pr, Meter.ZhWordCount(fetch(pr.number).text)));
      }
    }
  }

  /** The accounting of a run started on `table` with batch numbers `ns`. */
  predicate Accounted(table: seq<PrRecord>, ns: set<int>, fetch: int -> Fetched, r: Run)
  {
    && |r.fetched| == |r.table| - |table| + (if r.aborted then 1 else 0)
    && (forall j :: |table| <= j < |r.table| ==> r.fetched[j - |table|] == r.table[j].number)
    && (r.aborted ==>
          && |r.fetched| > 0
          && fetch(r.fetched[|r.fetched| - 1]) == TransportError
          && r.fetched[|r.fetched| - 1] !in Numbers(r.table))
    && (forall n :: n in r.fetched ==> n in ns)
    && Numbers(table) <= Numbers(r.table) <= Numbers(table) + ns
    && (!r.aborted ==> Numbers(r.table) == Numbers(table) + ns)
  }

  /** A skipped summary keeps the accounting: the run had already aborted or
      the number was stored. */
  lemma AccountedSkip(table: seq<PrRecord>, ns: set<int>, fetch: int -> Fetched, r: Run, n: int)
    requires Accounted(table, ns, fetch, r)
    requires r.aborted || n in Numbers(r.table)
    ensures Accounted(table, ns + {n}, fetch, r)
  {
  }

  /** A failed download keeps the accounting: it is the last download and
      its number stays absent. */
  lemma AccountedAbort(table: seq<PrRecord>, ns: set<int>, fetch: int -> Fetched, r: Run, n: int)
    requires Accounted(table, ns, fetch, r)
    requires !r.aborted && n !in Numbers(r.table) && fetch(n) == TransportError
    ensures Accounted(table, ns + {n}, fetch, Run(r.table, r.fetched + [n], true))
  {
  }

  /** A measured row keeps the accounting: its download and its row are both
      the last ones. */
  lemma AccountedAppend(table: seq<PrRecord>, ns: set<int>, fetch: int -> Fetched, r: Run, row: PrRecord)
    requires Accounted(table, ns, fetch, r)
    requires !r.aborted && row.number !in Numbers(r.table)
    ensures Accounted(table, ns + {row.number}, fetch, Run(r.table + [row], r.fetched + [row.number], false))
  {
    var r' := Run(r.table + [row], r.fetched + [row.number], false);
    NumbersSnoc(r.table, row);
    forall j | |table| <= j < |r'.table|
      ensures r'.fetched[j - |table|] == r'.table[j].number
    {
      if j < |r.table| {
        assert r'.fetched[j - |table|] == r.fetched[j - |table|];
      }
    }
  }


  /** Every row from index `from` on carries a number absent from all rows before it. */
  predicate FreshRows(t: seq<PrRecord>, from: nat)
  {
    forall j :: from <= j < |t| ==> t[j].number !in Numbers(t[..j])
  }

  /** Each new row carries a number absent from every row before it. */
  lemma {:induction false} IngestAppendsFresh(table: seq<PrRecord>, batch: seq<PrSummary>, fetch: int -> Fetched)
    ensures FreshRows(Ingest(table, batch, fetch).table, |table|)
    decreases |batch|
  {
    if |batch| > 0 {
      var r := Ingest(table, batch, fetch);
      var r0 := Ingest(table, batch[..|batch| - 1], fetch);
      var pr := batch[|batch| - 1];
      IngestAppendsFresh(table, batch[..|batch| - 1], fetch);
      assert r == InsertOne(r0, pr, fetch);
      HoldsNumbers(r0.table, pr.number);
      if r.table != r0.table {
        assert r.table == r0.table + [r.table[|r0.table|]];
        assert r.table[|r0.table|].number == pr.number && pr.number !in Numbers(r0.table);
        forall j | |table| <= j < |r.table|
          ensures r.table[j].number !in Numbers(r.table[..j])
        {
          if j < |r0.table| {
            assert r.table[..j] == r0.table[..j];
          } else {
            assert r.table[..j] == r0.table;
          }
        }
      }
    }
  }

  /** Downloads and inserts happen only for numbers absent from the table: every
      new row carries a number the table did not hold, no number is downloaded
      twice, and the table keeps at most one row per number. */
  lemma IngestFetchesOnlyNew(table: seq<PrRecord>, batch: seq<PrSummary>, fetch: int -> Fetched)
    ensures var r := Ingest(table, batch, fetch);
      && (forall j :: |table| <= j < |r.table| ==> r.table[j].number !in Numbers(table))
      && (forall n :: n in r.fetched ==> n !in Numbers(table))
      && UniqueNumbers(r.table[|table|..])
      && Distinct(r.fetched)
      && (UniqueNumbers(table) ==> UniqueNumbers(r.table))
  {
    IngestAppendsFresh(table, batch, fetch);
    IngestAccounts(table, batch, fetch);
    FreshRunOnlyNew(table, BatchNumbers(batch), fetch, Ingest(table, batch, fetch));
  }

  /** The conclusions of `IngestFetchesOnlyNew` for any run that only appended
      fresh rows and accounts for its downloads. */
  lemma FreshRunOnlyNew(table: seq<PrRecord>, ns: set<int>, fetch: int -> Fetched, r: Run)
    requires table <= r.table
    requires FreshRows(r.table, |table|)
    requires Accounted(table, ns, fetch, r)
    ensures && (forall j :: |table| <= j < |r.table| ==> r.table[j].number !in Numbers(table))
      && (forall n :: n in r.fetched ==> n !in Numbers(table))
      && UniqueNumbers(r.table[|table|..])
      && Distinct(r.fetched)
      && (UniqueNumbers(table) ==> UniqueNumbers(r.table))
  {
    var m := |r.table| - |table|;
    forall j | |table| <= j < |r.table|
      ensures r.table[j].number !in Numbers(table)
      ensures forall i :: 0 <= i < j ==> r.table[i].number != r.table[j].number
    {
      NumbersPrefix(table, r.table[..j]);
      assert forall i :: 0 <= i < j ==> r.table[i].number == r.table[..j][i].number;
    }
    forall n | n in r.fetched
      ensures n !in Numbers(table)
    {
      var i :| 0 <= i < |r.fetched| && r.fetched[i] == n;
      if i < m {
        assert r.table[|table| + i].number == n;
      } else {
        NumbersPrefix(table, r.table);
      }
    }
    var news := r.table[|table|..];
    assert forall i :: 0 <= i < |news| ==> news[i] == r.table[|table| + i];
    forall a, b | 0 <= a < b < |r.fetched|
      ensures r.fetched[a] != r.fetched[b]
    {
      assert r.fetched[a] == r.table[|table| + a].number;
      if b == m {
        assert r.fetched[a] in Numbers(r.table);
      } else {
        assert r.fetched[b] == r.table[|table| + b].number;
      }
    }
    if UniqueNumbers(table) {
      forall i, j | 0 <= i < j < |r.table|
        ensures r.table[i].number != r.table[j].number
      {
        if j < |table| {
          assert r.table[i] == table[i] && r.table[j] == table[j];
        }
      }
    }
  }

  /** `row` is the measured row of the first summary of `batch` carrying its
      number. */
  predicate MeasuredFirst(batch: seq<PrSummary>, fetch: int -> Fetched, row: PrRecord)
  {
    exists k :: 0 <= k < |batch| && FirstOccurrence(batch, k) && MeasuredRow(batch, k, fetch, row)
  }

  /** Every row from index `from` on is such a measured row. */
  predicate RowsMeasured(rows: seq<PrRecord>, from: nat, batch: seq<PrSummary>, fetch: int -> Fetched)
  {
    forall j :: from <= j < |rows| ==> MeasuredFirst(batch, fetch, rows[j])
  }

  /** Measured rows of a batch prefix stay measured rows of the whole batch. */
  lemma MeasuredFirstExtend(p: seq<PrSummary>, batch: seq<PrSummary>, fetch: int -> Fetched, row: PrRecord)
    requires p <= batch
    requires MeasuredFirst(p, fetch, row)
    ensures MeasuredFirst(batch, fetch, row)
  {
    var k :| 0 <= k < |p| && FirstOccurrence(p, k) && MeasuredRow(p, k, fetch, row);
    assert forall i :: 0 <= i <= k ==> batch[i] == p[i];
    assert FirstOccurrence(batch, k) && MeasuredRow(batch, k, fetch, row);
  }

  /** Every new row is the measured row of the first summary of the batch that
      carries its number: a number repeated within one batch is inserted once,
      for its first occurrence. */
  lemma {:induction false} IngestRowsMeasured(table: seq<PrRecord>, batch: seq<PrSummary>, fetch: int -> Fetched)
    ensures RowsMeasured(Ingest(table, batch, fetch).table, |table|, batch, fetch)
    decreases |batch|
  {
    if |batch| > 0 {
      var r := Ingest(table, batch, fetch);
      var p := batch[..|batch| - 1];
      var pr := batch[|batch| - 1];
      var r0 := Ingest(table, p, fetch);
      IngestRowsMeasured(table, p, fetch);
      assert r == InsertOne(r0, pr, fetch);
      HoldsNumbers(r0.table, pr.number);
      forall j | |table| <= j < |r0.table|
        ensures MeasuredFirst(batch, fetch, r.table[j])
      {
        MeasuredFirstExtend(p, batch, fetch, r0.table[j]);
      }
      if r.table != r0.table {
        LastRowMeasured(table, batch, fetch);
      }
    }
  }

  /** A row appended for the last summary of a batch is the measured row of
      that summary, which is the first one carrying its number. */
  lemma LastRowMeasured(table: seq<PrRecord>, batch: seq<PrSummary>, fetch: int -> Fetched)
    requires |batch| > 0
    requires var r0 := Ingest(table, batch[..|batch| - 1], fetch);
      InsertOne(r0, batch[|batch| - 1], fetch).table != r0.table
    ensures var r0 := Ingest(table, batch[..|batch| - 1], fetch);
      var r := InsertOne(r0, batch[|batch| - 1], fetch);
      |r.table| == |r0.table| + 1 && MeasuredFirst(batch, fetch, r.table[|r0.table|])
  {
    var p := batch[..|batch| - 1];
    var pr := batch[|batch| - 1];
    var r0 := Ingest(table, p, fetch);
    var r := InsertOne(r0, pr, fetch);
    HoldsNumbers(r0.table, pr.number);
    IngestAccounts(table, p, fetch);
    assert !r0.aborted && pr.number !in Numbers(r0.table);
    assert forall k' :: 0 <= k' < |p| ==> p[k'].number in BatchNumbers(p);
    assert FirstOccurrence(batch, |batch| - 1);
    assert MeasuredRow(batch, |batch| - 1, fetch, r.table[|r0.table|]);
  }

  /** A batch whose every number is already stored downloads nothing and
      changes nothing. */
  lemma {:induction false} IngestKnown(table: seq<PrRecord>, batch: seq<PrSummary>, fetch: int -> Fetched)
    requires BatchNumbers(batch) <= Numbers(table)
    ensures Ingest(table, batch, fetch) == Run(table, [], false)
    decreases |batch|
  {
    if |batch| > 0 {
      BatchNumbersSnoc(batch);
      IngestKnown(table, batch[..|batch| - 1], fetch);
      HoldsNumbers(table, batch[|batch| - 1].number);
    }
  }

  /** `insert_merged_prs` is idempotent: running a batch again on the table a
      completed run produced downloads nothing and leaves the table unchanged. */
  lemma IngestIdempotent(table: seq<PrRecord>, batch: seq<PrSummary>, fetch: int -> Fetched)
    requires !Ingest(table, batch, fetch).aborted
    ensures var r := Ingest(table, batch, fetch);
      Ingest(r.table, batch, fetch) == Run(r.table, [], false)
  {
    IngestAccounts(table, batch, fetch);
    IngestKnown(Ingest(table, batch, fetch).table, batch, fetch);
  }

  /** The state after handing `batch` to a further `insert_merged_prs` call once
      the run `r` is over: a call that raised ends everything, otherwise the
      downloads of both calls add up and the second call starts from the table
      the first one left. */
  function Continue(r: Run, batch: seq<PrSummary>, fetch: int -> Fetched): Run
  {
    if r.aborted then r
    else
      var r2 := Ingest(r.table, batch, fetch);
      Run(r2.table, r.fetched + r2.fetched, r2.aborted)
  }

  /** Two calls on consecutive batches act as one call on their concatenation. */
  lemma {:induction false} IngestAppend(table: seq<PrRecord>, a: seq<PrSummary>, b: seq<PrSummary>, fetch: int -> Fetched)
    ensures Ingest(table, a + b, fetch) == Continue(Ingest(table, a, fetch), b, fetch)
    decreases |b|
  {
    if |b| == 0 {
      assert a + b == a;
    } else {
      var b' := b[..|b| - 1];
      assert (a + b)[..|a + b| - 1] == a + b';
      assert (a + b)[|a + b| - 1] == b[|b| - 1];
      IngestAppend(table, a, b', fetch);
    }
  }

  /** The existence check `select * from pull_request where number = n`
      followed by the test on the first fetched row. */
  method StoredNumber(table: seq<PrRecord>, number: int) returns (found: bool)
    ensures found <==> number in Numbers(table)
  {
    var i := 0;
    while i < |table|
      invariant 0 <= i <= |table|
      invariant number !in Numbers(table[..i])
    {
      if table[i].number == number {
        return true;
      }
      assert table[..i + 1] == table[..i] + [table[i]];
      NumbersSnoc(table[..i], table[i]);
      i := i + 1;
    }
    assert table[..i] == table;
    return false;
  }

  /** The loop of `insert_merged_prs`: it computes `Ingest`, leaving the loop
      at the first failed download. */
  method InsertMergedPrs(table: seq<PrRecord>, batch: seq<PrSummary>, fetch: int -> Fetched) returns (r: Run)
    ensures r == Ingest(table, batch, fetch)
  {
    r := Run(table, [], false);
    var i := 0;
    while i < |batch|
      invariant 0 <= i <= |batch|
      invariant !r.aborted
      invariant r == Ingest(table, batch[..i], fetch)
    {
      var pr := batch[i];
      assert batch[..i + 1][..i] == batch[..i];
      var stored := StoredNumber(r.table, pr.number);
      HoldsNumbers(r.table, pr.number);
      if !stored {
        match fetch(pr.number)
        case TransportError =>
          r := Run(r.table, r.fetched + [pr.number], true);
          IngestAppend(table, batch[..i + 1], batch[i + 1..], fetch);
          assert batch[..i + 1] + batch[i + 1..] == batch;
          return;
        case Diff(text) =>
          var count := Meter.ZhWordCount(text);
          r := Run(r.table + [ToRecord(pr, count)], r.fetched + [pr.number], false);
      }
      i := i + 1;
    }
    assert batch[..i] == batch;
  }
}

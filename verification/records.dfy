/**
 Data model shared by the ingestion and reporting halves of the translation
 analysis: the pull-request summaries read from the upstream query and the rows
 of the `pull_request` table.
 */
module Records {

  /** A merged pull request as one edge of a query page carries it:
      number, author login, merge timestamp (ISO-8601 text) and base branch. */
  datatype PrSummary = PrSummary(number: int, author: string, mergedTime: string, baseBranch: string)

  /** One row of the `pull_request` table. The auto-incremented surrogate `id`
      is not stored: it is the row's position in the table plus one. */
  datatype PrRecord = PrRecord(number: int, author: string, mergedTime: string, zhWordCount: nat, baseBranch: string)

  /** The row written for a summary once its diff has been measured. */
  function ToRecord(pr: PrSummary, count: nat): PrRecord
  {
    PrRecord(pr.number, pr.author, pr.mergedTime, count, pr.baseBranch)
  }

  /** The pull-request numbers present in a table. */
  function Numbers(table: seq<PrRecord>): set<int>
  {
    set i | 0 <= i < |table| :: table[i].number
  }

  /** The pull-request numbers a batch of summaries mentions. */
  function BatchNumbers(batch: seq<PrSummary>): set<int>
  {
    set i | 0 <= i < |batch| :: batch[i].number
  }

  /** The table invariant: no two rows share a number. */
  predicate UniqueNumbers(table: seq<PrRecord>)
  {
    forall i, j :: 0 <= i < j < |table| ==> table[i].number != table[j].number
  }

  /** Index `k` is the first summary of `batch` carrying its number. */
  predicate FirstOccurrence(batch: seq<PrSummary>, k: int)
  {
    0 <= k < |batch| && forall k' :: 0 <= k' < k ==> batch[k'].number != batch[k].number
  }

  /** No value occurs twice in `s`. */
  predicate Distinct<T(==)>(s: seq<T>)
  {
    forall i, j :: 0 <= i < j < |s| ==> s[i] != s[j]
  }

  lemma NumbersSnoc(table: seq<PrRecord>, row: PrRecord)
    ensures Numbers(table + [row]) == Numbers(table) + {row.number}
  {
    var t' := table + [row];
    assert forall i :: 0 <= i < |table| ==> t'[i] == table[i];
    assert t'[|table|] == row;
  }

  lemma BatchNumbersSnoc(batch: seq<PrSummary>)
    requires |batch| > 0
    ensures BatchNumbers(batch) == BatchNumbers(batch[..|batch| - 1]) + {batch[|batch| - 1].number}
  {
    var p := batch[..|batch| - 1];
    assert forall i :: 0 <= i < |p| ==> p[i] == batch[i];
  }

  lemma NumbersPrefix(table: seq<PrRecord>, longer: seq<PrRecord>)
    requires table <= longer
    ensures Numbers(table) <= Numbers(longer)
  {
    assert forall i :: 0 <= i < |table| ==> table[i] == longer[i];
  }

  lemma BatchNumbersAppend(a: seq<PrSummary>, b: seq<PrSummary>)
    ensures BatchNumbers(a + b) == BatchNumbers(a) + BatchNumbers(b)
  {
    var ab := a + b;
    assert forall i :: 0 <= i < |a| ==> ab[i] == a[i];
    assert forall i :: 0 <= i < |b| ==> ab[|a| + i] == b[i];
    forall n | n in BatchNumbers(ab)
      ensures n in BatchNumbers(a) + BatchNumbers(b)
    {
      var i :| 0 <= i < |ab| && ab[i].number == n;
      if i >= |a| {
        assert b[i - |a|].number == n;
      }
    }
  }
}

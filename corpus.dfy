/**
 * `write_to_csv` of the three remote scripts: one single-field row per
 * document, in order. The summarizer reads such a file back and takes the
 * first field of every row.
 */
module Corpus {

  /** The rows written for `data`: each document alone in its row. */
  function Rows(data: seq<string>): seq<seq<string>>
  {
    seq(|data|, k requires 0 <= k < |data| => [data[k]])
  }

  /** The first field of every row, for rows that have one. */
  function FirstColumn(rows: seq<seq<string>>): seq<string>
    requires forall k :: 0 <= k < |rows| ==> |rows[k]| > 0
  {
    seq(|rows|, k requires 0 <= k < |rows| && |rows[k]| > 0 => rows[k][0])
  }

  /** `write_to_csv`: writes the rows one document at a time. */
  method WriteToCsv(data: seq<string>) returns (rows: seq<seq<string>>)
    ensures rows == Rows(data)
  {
    rows := [];
    for i := 0 to |data|
      invariant rows == Rows(data[..i])
    {
      rows := rows + [[data[i]]];
    }
    assert data[..|data|] == data;
  }

  /** Reading the first field of every written row gives the documents back,
      and no written row is empty. */
  lemma RowsRoundTrip(data: seq<string>)
    ensures |Rows(data)| == |data|
    ensures forall k :: 0 <= k < |data| ==> |Rows(data)[k]| == 1
    ensures FirstColumn(Rows(data)) == data
  {
  }
}

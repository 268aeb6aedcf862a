/** The dataset writer (`write_dataset`) and the exit status of `main` in scrape_ce.py.

    The file system is reduced to one flag: whether creating the parent
    directory and writing the CSV succeed. */
module Persist {
  import opened Wrappers
  import opened Practice

  /** `ValueError` for an empty record list; `OSError` from the file system. */
  datatype WriteError = NoRecords | FileSystemError

  /** `write_dataset`: refuses an empty record list before touching the file
      system; otherwise writes one row per record, or fails with the file system. */
  function WriteDataset(records: seq<GoodPractice>, fileSystemOk: bool): (r: Result<seq<Row>, WriteError>)
    ensures records == [] ==> r == Failure(NoRecords)
    ensures records != [] && !fileSystemOk ==> r == Failure(FileSystemError)
    ensures r.Success? <==> records != [] && fileSystemOk
    ensures r.Success? ==> |r.value| == |records|
    ensures r.Success? ==> forall i :: 0 <= i < |records| ==> FromRow(r.value[i]) == Some(records[i])
  {
    if records == [] then Failure(NoRecords)
    else if !fileSystemOk then Failure(FileSystemError)
    else
      var rows := seq(|records|, i requires 0 <= i < |records| => ToRow(records[i]));
      assert forall i :: 0 <= i < |records| ==> FromRow(rows[i]) == Some(records[i]) by {
        forall i | 0 <= i < |records| ensures FromRow(rows[i]) == Some(records[i]) {
          RowRoundTrip(records[i], rows[i]);
        }
      }
      Success(rows)
  }

  /** Process exit status of `main`. */
  const ExitOk: int := 0
  const ExitNoRecords: int := 1
  const ExitWriteFailed: int := 2

  /** The exit decision of `main`: 1 when scraping produced nothing, 2 when
      saving failed, 0 otherwise. Since an empty result never reaches the writer,
      status 2 only ever comes from the file system. */
  function MainExitCode(records: seq<GoodPractice>, fileSystemOk: bool): (code: int)
    ensures code == ExitNoRecords <==> records == []
    ensures code == ExitWriteFailed <==> records != [] && !fileSystemOk
    ensures code == ExitOk <==> records != [] && fileSystemOk
    ensures code == ExitWriteFailed ==> WriteDataset(records, fileSystemOk) == Failure(FileSystemError)
  {
    if records == [] then ExitNoRecords
    else
      match WriteDataset(records, fileSystemOk)
      case Failure(_) => ExitWriteFailed
      case Success(_) => ExitOk
  }
}

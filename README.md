# BinaryDataLoader, modelled in Dafny

Encog's `BinaryDataLoader` converts a training data set between an external
format, reached through a CODEC (`IDataSetCODEC`), and an Encog binary (EGB)
training file.

- `External2Binary` pulls the CODEC's records one at a time. For each record it
  appends the input vector and then the ideal vector to a new EGB file.
- `Binary2External` opens an EGB file and tells the CODEC the file's record
  count and vector sizes. It then reads the body value by value, regroups the
  values into input/ideal pairs and hands each pair to the CODEC.
- Both report progress to a status reporter: one report at the start, one
  every 10,000 records and one at the end.

This project models the loader and proves that the two directions undo each
other. It also proves what each direction leaves in the file or in the CODEC,
and when and with what numbers it reports progress.

Files:

- `records.dfy` (module `Records`): the record layout.
  - `Flatten` is the body an import writes.
  - `Regroup` is the record sequence an export hands over.
  - The lemmas about them include both round trips.
- `progress.dfy` (module `Progress`): the status reports.
  - `SinceReport` is the `lastUpdate` counter.
  - `ProgressReports` is the reports made every REPORT_INTERVAL records.
  - `ImportLog` and `ExportLog` are everything a run reports.
- `egb.dfy` (module `Egb`): the EGB file as the loader uses it.
  - Operations: `Create`, `Write`, `Open`, `Read` and `Close`.
  - The disk is a `FileSystem`, a map from file names to file images.
  - `Create` and `Close` change the disk; `Open` reads it.
- `codec.dfy` (module `Codec`): the CODEC the loader uses.
  - Reading streams the records of `source`.
  - Writing appends to `sink`.
  - `header` remembers the last `PrepareWrite`.
- `status.dfy` (module `Status`): the null status reporter, with a ghost `log` of the calls it gets.
- `loader.dfy` (module `Loader`): `BinaryDataLoader` itself, plus callers that run it end to end.

How the code is laid out:

- Each loop body runs the source's statements in the source's order.
- Each of the two main loops is its own method: `ImportRecords` and `ExportRecords`.
- The two inner read loops of the export are `ReadVector`; `ReadRecord` runs them one after the other.
- The loops change the same variables as the source, including the otherwise unused `index`.
- `Offset(i, w)` is i * w written as repeated addition (`OffsetIsProduct`), which keeps the proofs in linear arithmetic.

The loader catches no exception, so whatever its collaborators throw reaches its caller. The model covers two of these exceptions: opening a file that does not exist, and reading past the end of the body. Both are modelled as a returned `Outcome` (`Failed(FileNotFound)`, `Failed(ReadPastEnd)`). The source has no `try`/`finally`, so on an error the method stops where it is. It does not close the file or the CODEC and makes no completion report. The contracts state this.

Every run begins with a report of total 0 and current 0, and every completed run also ends with one; a failed export ends on its last progress report, or on its start report. So the `current` values rise only from one progress report to the next (`ProgressStrictlyIncreasing`), not over the whole run: the final report goes back to 0.

## Model

| member | source | states |
|---|---|---|
| Loader.BinaryDataLoader.constructor | encog-core-cs/ML/Data/Buffer/BinaryDataLoader.cs:23-27 | a new loader keeps the given CODEC and reports to a fresh null reporter that has received nothing |
| Loader.BinaryDataLoader.External2Binary | encog-core-cs/ML/Data/Buffer/BinaryDataLoader.cs:47-85 | afterwards the file holds the CODEC's input and ideal sizes, the records' values in order (input then ideal, record after record) and `RecordCount` of those values as its record count, which is the number of records when n + m > 0 (`RecordCountOfFlatten`) and 0 otherwise; the CODEC has been read to the end, with exactly one more `Read` call than it has records, and closed; nothing else on disk changes; the reports are exactly `ImportLog` |
| Loader.BinaryDataLoader.ImportRecords | encog-core-cs/ML/Data/Buffer/BinaryDataLoader.cs:61-79 | the import loop appends `Flatten` of every CODEC record to the file and reads the CODEC to its end: `Read` is called |source| + 1 times, true for each record and false once, after which it is not called again; loop invariants: `index == 3 + currentRecord * (n + m)`, `0 <= lastUpdate < 10000`, `currentRecord` equals the number of successful reads |
| Loader.BinaryDataLoader.Binary2External | encog-core-cs/ML/Data/Buffer/BinaryDataLoader.cs:91-139 | a missing file fails with FileNotFound after the start report and leaves the CODEC untouched. Otherwise the CODEC is prepared with exactly the file's record count and sizes and receives `Regroup` of the body. A complete body ends Done, with the CODEC closed and the reports equal to `ExportLog`. A short body fails with ReadPastEnd after handing over its whole records. The disk is never changed |
| Loader.BinaryDataLoader.ExportRecords | encog-core-cs/ML/Data/Buffer/BinaryDataLoader.cs:107-133 | the export loop hands the CODEC `Regroup` of the body (by `RegroupAt`, record i is values [i*(n+m), i*(n+m)+n) and the m values after them), for every record the body holds in full. It succeeds exactly when the body is complete, and then it has made exactly NumberOfRecords*(n+m) reads. The CODEC's header and phase are unchanged. It reports every 10,000 records with total NumberOfRecords |
| Loader.ReadVector | encog-core-cs/ML/Data/Buffer/BinaryDataLoader.cs:113-116 | fills the array with the next values of the body in order and advances the cursor by the array's length; fails exactly when the body holds fewer values, and then stops at its end |
| Loader.ReadRecord | encog-core-cs/ML/Data/Buffer/BinaryDataLoader.cs:113-121 | reading record k fills `input` and `ideal` with `Chunk(values, n, m, k)`; it fails exactly when the body ends inside the record |
| Loader.WholeRecords | encog-core-cs/ML/Data/Buffer/BinaryDataLoader.cs:111-121 | the number of whole records (at most the limit) that fit in the body: they fit, and when fewer than the limit, one more does not |
| Loader.ExportedCount | encog-core-cs/ML/Data/Buffer/BinaryDataLoader.cs:111-121 | the records an export hands over: no more than the header promises, all present in the body, and all of them exactly when the body is complete |
| Loader.ExportedCountOfShortBody | encog-core-cs/ML/Data/Buffer/BinaryDataLoader.cs:111-121 | a short body has a positive record width and hands over \|body\| / (n + m) records |
| Loader.ExportStopsAt | encog-core-cs/ML/Data/Buffer/BinaryDataLoader.cs:111-121 | a read that runs out inside record i means the body is incomplete and exactly i records were exported |
| Loader.ImportThenExport | encog-core-cs/ML/Data/Buffer/BinaryDataLoader.cs:47-139 | importing any uniform data set into a file and exporting that file gives back the same records in the same order, and the export ends Done |
| Loader.ExportThenImport | encog-core-cs/ML/Data/Buffer/BinaryDataLoader.cs:47-139 | exporting a complete file and importing what the CODEC received gives a file with the same sizes and record count, whose body is the original's whole records |
| Loader.ImportEmpty | encog-core-cs/ML/Data/Buffer/BinaryDataLoader.cs:47-85 | importing an empty data set writes a file with the CODEC's sizes, no values and record count 0, and reports only its start and completion |
| Loader.ExportEmpty | encog-core-cs/ML/Data/Buffer/BinaryDataLoader.cs:91-139 | exporting a file whose header has no records ends Done, writes nothing to the CODEC, and reports only its start and completion |
| Records.Flatten | encog-core-cs/ML/Data/Buffer/BinaryDataLoader.cs:65-68 | the body an import writes begins with the first record's input values and then its ideal values |
| Records.FlattenCons | encog-core-cs/ML/Data/Buffer/BinaryDataLoader.cs:65-68 | the body is the first record's input and ideal values followed by the body of the remaining records |
| Records.RecordCount | encog-core-cs/ML/Data/Buffer/BinaryDataLoader.cs:81 | the record count stored on close is the number of whole records of n + m values in the body: they fit and one more does not; 0 for zero-width records |
| Records.Chunk | encog-core-cs/ML/Data/Buffer/BinaryDataLoader.cs:113-121 | record i of a body has an input vector of n values and an ideal vector of m values |
| Records.Regroup | encog-core-cs/ML/Data/Buffer/BinaryDataLoader.cs:111-123 | regrouping `count` records writes exactly `count` records to the CODEC, each with the file's vector sizes |
| Records.RegroupAt | encog-core-cs/ML/Data/Buffer/BinaryDataLoader.cs:111-123 | the i-th record written has input values[i*(n+m) .. i*(n+m)+n] and ideal the following m values |
| Records.FlattenLength | encog-core-cs/ML/Data/Buffer/BinaryDataLoader.cs:65-71 | an import of r uniform records writes r * (n + m) values, counted by `Offset` |
| Records.OffsetIsProduct | encog-core-cs/ML/Data/Buffer/BinaryDataLoader.cs:70-71 | `Offset(i, w)`, the running `index - 3`, is i * w |
| Records.RegroupFlatten | encog-core-cs/ML/Data/Buffer/BinaryDataLoader.cs:47-139 | regrouping the flattened body of uniform records gives back the records (import then export) |
| Records.FlattenRegroup | encog-core-cs/ML/Data/Buffer/BinaryDataLoader.cs:47-139 | flattening the records regrouped from a body gives back the body's first count * (n + m) values (export then import) |
| Records.RecordCountOfFlatten | encog-core-cs/ML/Data/Buffer/BinaryDataLoader.cs:81 | closing a file that holds the flattened body of r records of positive width records r as its record count |
| Progress.SinceReport | encog-core-cs/ML/Data/Buffer/BinaryDataLoader.cs:73-78 | the `lastUpdate` counter stays below 10,000 |
| Progress.SinceReportIsRemainder | encog-core-cs/ML/Data/Buffer/BinaryDataLoader.cs:72-78 | after k records `lastUpdate` is k mod 10,000 |
| Progress.ProgressReports | encog-core-cs/ML/Data/Buffer/BinaryDataLoader.cs:74-78 | the progress reports of k records are at most k reports, each with the run's total and message and a current between 1 and k |
| Progress.ImportLog | encog-core-cs/ML/Data/Buffer/BinaryDataLoader.cs:49-84 | an import's reports open with its start report, close with its completion report, and in between are "Importing..." reports of total 0 |
| Progress.ExportLog | encog-core-cs/ML/Data/Buffer/BinaryDataLoader.cs:93-138 | a complete export's reports open with its start report, close with its completion report, and in between are "Exporting..." reports of total k with current between 1 and k |
| Progress.ProgressReportsClosedForm | encog-core-cs/ML/Data/Buffer/BinaryDataLoader.cs:74-78 | the progress reports of k records are k / 10,000 reports, of 10000, 20000, ... in order |
| Progress.ProgressReportedAt | encog-core-cs/ML/Data/Buffer/BinaryDataLoader.cs:127-132 | a progress report is made for `current` if and only if it is a positive multiple of 10,000 no larger than the records moved |
| Progress.ProgressStrictlyIncreasing | encog-core-cs/ML/Data/Buffer/BinaryDataLoader.cs:74-78 | the `current` values of the progress reports strictly increase |
| Progress.ImportLogShape | encog-core-cs/ML/Data/Buffer/BinaryDataLoader.cs:49-84 | an import of k records reports k / 10,000 + 2 times, starting and ending with its (0, 0) reports, and every report has total 0 |
| Progress.ExportLogShape | encog-core-cs/ML/Data/Buffer/BinaryDataLoader.cs:93-138 | an export of k records reports k / 10,000 + 2 times, starting and ending with its (0, 0) reports; every progress report in between has total k and current at most k |
| Egb.EgbFile.constructor | encog-core-cs/ML/Data/Buffer/BinaryDataLoader.cs:52 | a new file object names its path on the given disk, is not yet open, and holds no values with the cursor at the start |
| Egb.EgbFile.Create | encog-core-cs/ML/Data/Buffer/BinaryDataLoader.cs:54 | creating the file with the given sizes writes a provisional image with no records to the disk and leaves the file empty and open for writing |
| Egb.EgbFile.Write | encog-core-cs/ML/Data/Buffer/BinaryDataLoader.cs:67-68 | writing a vector appends all its values to the body, in order |
| Egb.EgbFile.Open | encog-core-cs/ML/Data/Buffer/BinaryDataLoader.cs:96 | opening finds the file exactly when it is on disk, and then exposes its header and body with the cursor at the start |
| Egb.EgbFile.Read | encog-core-cs/ML/Data/Buffer/BinaryDataLoader.cs:115 | reading returns the value at the cursor and advances it; past the end it fails and nothing moves |
| Egb.EgbFile.Close | encog-core-cs/ML/Data/Buffer/BinaryDataLoader.cs:81 | closing after writing stores the sizes, the whole-record count and the body on disk; closing after reading leaves the disk as it was |
| Codec.DataSetCodec.PrepareRead | encog-core-cs/ML/Data/Buffer/BinaryDataLoader.cs:59 | reading restarts at the first source record, with no `Read` call counted yet |
| Codec.DataSetCodec.Read | encog-core-cs/ML/Data/Buffer/BinaryDataLoader.cs:65 | a read copies the next source record into the two arrays and returns true; once the source is exhausted it returns false and changes nothing; every call is counted |
| Codec.DataSetCodec.PrepareWrite | encog-core-cs/ML/Data/Buffer/BinaryDataLoader.cs:98-99 | preparing to write records the record count and sizes it is given and empties the output |
| Codec.DataSetCodec.Write | encog-core-cs/ML/Data/Buffer/BinaryDataLoader.cs:123 | a write appends the record made of the two arrays' current contents |
| Codec.DataSetCodec.Close | encog-core-cs/ML/Data/Buffer/BinaryDataLoader.cs:82 | closing ends the CODEC's session |
| Status.StatusReportable.NullStatusReportable | encog-core-cs/ML/Data/Buffer/BinaryDataLoader.cs:26 | the null reporter starts with no reports |
| Status.StatusReportable.Report | encog-core-cs/ML/Data/Buffer/BinaryDataLoader.cs:49-50 | each report is recorded as one (total, current, message) entry, after those before it |

## Left out

- `EncogEGBFile` is not part of this model. Its byte-level format, header encoding and file handles are replaced by the value-level contract in `egb.dfy`. The record count it stores on close is taken to be the number of whole records in the body, \|values\| / (n + m), or 0 when n + m is 0.
- Header validation and I/O failures other than a missing file and a read past the end (a full disk, a malformed header) are not modelled.
- Concrete CODECs such as CSV, and status reporters other than the null reporter, are not modelled. The CODEC is a source sequence and a sink sequence, and the reporter's log is ghost.
- Values are 64-bit patterns (`bv64`). The loader only copies them, so floating-point semantics play no part.
- `currentRecord`, `lastUpdate` and `index` are unbounded naturals. 32-bit overflow on data sets of more than 2^31 records or values is not modelled.
- The public `CODEC` getter (lines 37-40) is the public constant field `codec`. The private `Status` property is the constant field `status`, fixed to the null reporter as in the source.
- Codec.DataSetCodec.Write: the CODEC is taken to copy the two arrays' values when a record is written. The loader reuses the same arrays for every record, so a CODEC that kept the arrays themselves would see each earlier record change; that aliasing is not modelled.
- ImportThenExport: requires n + m > 0. With zero-width records the file records 0 records on close, so an export of it returns nothing whatever the data set held.
- ExportThenImport: requires a complete body. A short body makes the export fail (see `Binary2External`), and no import follows. It also requires n + m > 0 (see ImportThenExport): zero-width records are stored with a record count of 0 on close, so the re-imported file would not keep the original record count.

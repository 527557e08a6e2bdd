/**
 * The status reports the loader sends while it converts: one at the start,
 * one every REPORT_INTERVAL records, one at the end.
 */
module Progress {

  /** One call of the status reporter: Report(total, current, message). */
  datatype StatusReport = StatusReport(total: nat, current: nat, message: string)

  /** The loader reports progress once every this many records. */
  const REPORT_INTERVAL: nat := 10000

  /**
   * The loader's `lastUpdate` counter after `count` records: the records moved
   * since the last progress report. It restarts at 0 when it reaches
   * REPORT_INTERVAL, and a report is made at that moment.
   */
  function SinceReport(count: nat): (r: nat)
    ensures r < REPORT_INTERVAL
  {
    if count == 0 then 0
    else if SinceReport(count - 1) + 1 >= REPORT_INTERVAL then 0
    else SinceReport(count - 1) + 1
  }

  /**
   * The progress reports made while the first `count` records move: after
   * record k, a report of k whenever the counter restarts.
   */
  function ProgressReports(total: nat, count: nat, message: string): (r: seq<StatusReport>)
    ensures |r| <= count
    ensures forall j :: 0 <= j < |r| ==>
      r[j].total == total && r[j].message == message && 0 < r[j].current <= count
    decreases count
  {
    if count == 0 then []
    else
      ProgressReports(total, count - 1, message)
      + (if SinceReport(count) == 0 then [StatusReport(total, count, message)] else [])
  }

  /** The counter is the remainder of the record count by REPORT_INTERVAL. */
  lemma {:induction false} SinceReportIsRemainder(count: nat)
    ensures SinceReport(count) == count % REPORT_INTERVAL
  {
    if count > 0 {
      SinceReportIsRemainder(count - 1);
    }
  }

  /**
   * One more record, counted since the last report in `sinceReport`: a report is
   * due exactly when the counter reaches REPORT_INTERVAL, and then the counter restarts.
   */
  lemma ProgressStep(total: nat, count: nat, message: string, sinceReport: nat)
    requires sinceReport == SinceReport(count)
    ensures sinceReport + 1 >= REPORT_INTERVAL ==>
      && ProgressReports(total, count + 1, message)
         == ProgressReports(total, count, message) + [StatusReport(total, count + 1, message)]
      && 0 == SinceReport(count + 1)
    ensures sinceReport + 1 < REPORT_INTERVAL ==>
      && ProgressReports(total, count + 1, message) == ProgressReports(total, count, message)
      && sinceReport + 1 == SinceReport(count + 1)
  {
  }

  /** The message of an import's progress reports. */
  const IMPORTING: string := "Importing..."

  /** The message of an export's progress reports. */
  const EXPORTING: string := "Exporting..."

  /** The texts of the start and completion reports, each followed by the file name. */
  function ImportStartText(binaryFile: string): string
  {
    "Importing to binary file: " + binaryFile
  }

  function ImportDoneText(binaryFile: string): string
  {
    "Done importing to binary file: " + binaryFile
  }

  function ExportStartText(binaryFile: string): string
  {
    "Exporting binary file: " + binaryFile
  }

  function ExportDoneText(binaryFile: string): string
  {
    "Done exporting binary file: " + binaryFile
  }

  /** The start report of an import into `binaryFile`. */
  function ImportStart(binaryFile: string): StatusReport
  {
    StatusReport(0, 0, ImportStartText(binaryFile))
  }

  /** The completion report of an import into `binaryFile`. */
  function ImportDone(binaryFile: string): StatusReport
  {
    StatusReport(0, 0, ImportDoneText(binaryFile))
  }

  /** The start report of an export from `binaryFile`. */
  function ExportStart(binaryFile: string): StatusReport
  {
    StatusReport(0, 0, ExportStartText(binaryFile))
  }

  /** The completion report of an export from `binaryFile`. */
  function ExportDone(binaryFile: string): StatusReport
  {
    StatusReport(0, 0, ExportDoneText(binaryFile))
  }

  /** Everything an import of `count` records reports; import progress reports carry total 0. */
  function ImportLog(binaryFile: string, count: nat): (r: seq<StatusReport>)
    ensures 2 <= |r| <= count + 2
    ensures r[0] == ImportStart(binaryFile) && r[|r| - 1] == ImportDone(binaryFile)
    ensures forall j :: 0 < j < |r| - 1 ==> r[j].message == IMPORTING && r[j].total == 0
  {
    [ImportStart(binaryFile)] + ProgressReports(0, count, IMPORTING) + [ImportDone(binaryFile)]
  }

  /** Everything a complete export of `count` records reports; progress reports carry total `count`. */
  function ExportLog(binaryFile: string, count: nat): (r: seq<StatusReport>)
    ensures 2 <= |r| <= count + 2
    ensures r[0] == ExportStart(binaryFile) && r[|r| - 1] == ExportDone(binaryFile)
    ensures forall j :: 0 < j < |r| - 1 ==>
      r[j].message == EXPORTING && r[j].total == count && 0 < r[j].current <= count
  {
    [ExportStart(binaryFile)] + ProgressReports(count, count, EXPORTING) + [ExportDone(binaryFile)]
  }

  /** Reporting the parts of an import log one after another yields the import log. */
  lemma ImportLogAfter(before: seq<StatusReport>, binaryFile: string, count: nat)
    ensures before + [ImportStart(binaryFile)] + ProgressReports(0, count, IMPORTING) + [ImportDone(binaryFile)]
            == before + ImportLog(binaryFile, count)
  {
  }

  /** Reporting the parts of an export log one after another yields the export log. */
  lemma ExportLogAfter(before: seq<StatusReport>, binaryFile: string, count: nat)
    ensures before + [ExportStart(binaryFile)] + ProgressReports(count, count, EXPORTING) + [ExportDone(binaryFile)]
            == before + ExportLog(binaryFile, count)
  {
  }

  /**
   * The progress reports of `count` records are exactly the reports of
   * REPORT_INTERVAL, 2 * REPORT_INTERVAL, ... up to `count`, in that order.
   */
  lemma {:induction false} ProgressReportsClosedForm(total: nat, count: nat, message: string)
    ensures |ProgressReports(total, count, message)| == count / REPORT_INTERVAL
    ensures forall j :: 0 <= j < |ProgressReports(total, count, message)| ==>
      ProgressReports(total, count, message)[j] == StatusReport(total, (j + 1) * REPORT_INTERVAL, message)
    decreases count
  {
    if count > 0 {
      ProgressReportsClosedForm(total, count - 1, message);
      SinceReportIsRemainder(count);
      if count % REPORT_INTERVAL == 0 {
        assert count / REPORT_INTERVAL == (count - 1) / REPORT_INTERVAL + 1;
        assert count == ((count - 1) / REPORT_INTERVAL + 1) * REPORT_INTERVAL;
      } else {
        assert count / REPORT_INTERVAL == (count - 1) / REPORT_INTERVAL;
      }
    }
  }

  /** A progress report is made for `current` exactly when it is a positive multiple of REPORT_INTERVAL no larger than `count`. */
  lemma ProgressReportedAt(total: nat, count: nat, message: string, current: nat)
    ensures (exists j :: 0 <= j < |ProgressReports(total, count, message)| &&
                         ProgressReports(total, count, message)[j].current == current)
        <==> (0 < current <= count && current % REPORT_INTERVAL == 0)
  {
    ProgressReportsClosedForm(total, count, message);
    var reports := ProgressReports(total, count, message);
    if 0 < current <= count && current % REPORT_INTERVAL == 0 {
      var j := current / REPORT_INTERVAL - 1;
      assert reports[j].current == current;
    }
  }

  /** The `current` values of the progress reports strictly increase. */
  lemma ProgressStrictlyIncreasing(total: nat, count: nat, message: string, i: nat, j: nat)
    requires i < j < |ProgressReports(total, count, message)|
    ensures ProgressReports(total, count, message)[i].current < ProgressReports(total, count, message)[j].current
  {
    ProgressReportsClosedForm(total, count, message);
  }

  /**
   * An import log opens and closes with a (0, 0) report and holds one progress
   * report per REPORT_INTERVAL records in between.
   */
  lemma ImportLogShape(binaryFile: string, count: nat)
    ensures |ImportLog(binaryFile, count)| == count / REPORT_INTERVAL + 2
    ensures ImportLog(binaryFile, count)[0] == ImportStart(binaryFile)
    ensures ImportLog(binaryFile, count)[|ImportLog(binaryFile, count)| - 1] == ImportDone(binaryFile)
    ensures forall r :: r in ImportLog(binaryFile, count) ==> r.total == 0
  {
    ProgressReportsClosedForm(0, count, IMPORTING);
  }

  /**
   * An export log opens and closes with a (0, 0) report; in between, every
   * progress report carries the record count as its total.
   */
  lemma ExportLogShape(binaryFile: string, count: nat)
    ensures |ExportLog(binaryFile, count)| == count / REPORT_INTERVAL + 2
    ensures ExportLog(binaryFile, count)[0] == ExportStart(binaryFile)
    ensures ExportLog(binaryFile, count)[|ExportLog(binaryFile, count)| - 1] == ExportDone(binaryFile)
    ensures forall j :: 1 <= j < |ExportLog(binaryFile, count)| - 1 ==>
      ExportLog(binaryFile, count)[j].total == count && ExportLog(binaryFile, count)[j].current <= count
  {
    ProgressReportsClosedForm(count, count, EXPORTING);
  }
}

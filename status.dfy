/**
 * The status reporter. The loader's default is the null reporter, which
 * discards every report; `log` records the calls it receives so that the
 * loader's reporting can be stated.
 *
 * `StatusReportable` stands for both the reporter interface the loader talks
 * to (`IStatusReportable`) and its no-op implementation, which is why its
 * only constructor is named `NullStatusReportable`.
 */
module Status {
  import opened Progress

  class StatusReportable {
    ghost var log: seq<StatusReport>

    /** The no-op reporter. */
    constructor NullStatusReportable()
      ensures log == []
    {
      log := [];
    }

    method Report(total: nat, current: nat, message: string)
      modifies this
      ensures log == old(log) + [StatusReport(total, current, message)]
    {
      log := log + [StatusReport(total, current, message)];
    }
  }
}

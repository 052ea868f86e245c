/** The whole check run (`check`, `check_adapter`, `check_disks`) with the
    command outputs and exit codes as inputs.

    The adapter scan runs first and reports its gauges as it goes; the disk
    scan runs only when the adapter scan raised nothing, and reports its gauges
    only after its whole scan went through. `error` is the exception that ended
    the run, if any.
 */
module Checks {
  import opened Results
  import opened Text
  import opened Metrics
  import AdapterScan
  import DiskScan
  import opened DiskEmission

  /** `check_disks` after the command has run: no gauge at all unless the
      exit code is 0 and the whole scan goes through; then one gauge per
      value in the final map, each of which some field line of the output
      yielded, under an adapter and disk some header and device line of the
      output named. A failed scan reports the exception of its first
      rejected line. */
  method CheckDisks(host: string, output: string, exitCode: int)
    returns (readings: seq<Reading>, gauges: seq<Gauge>, error: Option<ScanError>)
    ensures exitCode != 0 ==> readings == [] && gauges == [] && error == None
    ensures Distinct(readings) && gauges == Gauges(host, readings)
    ensures exitCode == 0 ==>
              var lines := Split(output, '\n');
              && (error.None? <==> DiskScan.AllAccepted(lines))
              && (error.Some? ==> readings == [] && DiskScan.Run(DiskScan.Start, lines) == Failure(error.value))
              && (error.Some? ==>
                    exists k :: 0 <= k < |lines| && DiskScan.AllAccepted(lines[..k])
                                && !DiskScan.Accepted(lines[..k], lines[k])
                                && error.value == DiskScan.RejectionError(lines[k]))
              && (error.None? ==>
                    && DiskScan.Run(DiskScan.Start, lines).Success?
                    && (forall r :: r in readings <==> Present(DiskScan.Run(DiskScan.Start, lines).value.disks, r))
                    && (forall r :: r in readings ==> Witnessed(lines, r.field, r.value))
                    && (forall r :: r in readings ==> SectionNamed(lines, r.adapter) && DeviceNamed(lines, r.disk)))
  {
    if exitCode != 0 {
      return [], [], None;
    }
    var lines := Split(output, '\n');
    DiskScan.ScanInvariant(lines);
    ScanProvenance(lines);
    ScanIds(lines);
    match DiskScan.Run(DiskScan.Start, lines)
    case Failure(e) =>
      DiskScan.FailedAtFirstRejectedLine(lines);
      return [], [], Some(e);
    case Success(st) =>
      readings, gauges := EmitDisks(host, st.disks);
      error := None;
  }

  /** `check`: an instance without an `adapter` entry raises `KeyError` before
      any command runs; an exception in the adapter scan keeps the adapter
      gauges already reported and skips the disk check; otherwise the disk
      gauges follow the adapter gauges. */
  method RunCheck(host: string, selector: Option<string>,
                  ldOutput: string, ldExit: int, pdOutput: string, pdExit: int)
    returns (readings: seq<Reading>, gauges: seq<Gauge>, error: Option<ScanError>)
    ensures selector.None? ==> readings == [] && gauges == [] && error == Some(KeyError)
    ensures selector.Some? ==>
              var ad := AdapterScan.CheckAdapter(host, ldOutput, ldExit);
              && (ad.Aborted? ==> readings == [] && gauges == ad.emitted && error == Some(ad.error))
              && (ad.Running? ==>
                    var lines := Split(pdOutput, '\n');
                    && gauges == ad.scan.emitted + Gauges(host, readings)
                    && Distinct(readings)
                    && (pdExit != 0 ==> readings == [] && error == None)
                    && (pdExit == 0 ==>
                          && (error.None? <==> DiskScan.AllAccepted(lines))
                          && (error.Some? ==>
                                && readings == []
                                && exists k :: 0 <= k < |lines| && DiskScan.AllAccepted(lines[..k])
                                               && !DiskScan.Accepted(lines[..k], lines[k])
                                               && error.value == DiskScan.RejectionError(lines[k]))
                          && (error.None? ==>
                                && DiskScan.Run(DiskScan.Start, lines).Success?
                                && forall r :: r in readings <==> Present(DiskScan.Run(DiskScan.Start, lines).value.disks, r))))
  {
    if selector.None? {
      return [], [], Some(KeyError);
    }
    var ad := AdapterScan.CheckAdapter(host, ldOutput, ldExit);
    if ad.Aborted? {
      return [], ad.emitted, Some(ad.error);
    }
    var diskGauges;
    readings, diskGauges, error := CheckDisks(host, pdOutput, pdExit);
    gauges := ad.scan.emitted + diskGauges;
  }
}

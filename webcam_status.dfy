/** `get_webcam_status`: probe capture devices 0, 1, 2, ... and sort each
    port into one of three lists, stopping once six ports in all could not
    be opened.  The capture library is replaced by two oracles: whether the
    device at a port opens, and whether reading a frame from it succeeds. */
module WebcamStatus {

  /** Scanning stops once this many ports in all have failed to open. */
  const StopAfterFailures: nat := 6

  /** The three lists, in the order the function returns them. */
  datatype PortScan = PortScan(available: seq<nat>, working: seq<nat>, nonWorking: seq<nat>)

  /** The verdict on one probed port. */
  datatype PortStatus = NotOpened | Working | Available

  /** Not opened is non-working; opened with a frame read is working;
      opened but unreadable is available. */
  function Classify(isOpened: nat -> bool, readOk: nat -> bool, port: nat): PortStatus
  {
    if !isOpened(port) then NotOpened
    else if readOk(port) then Working
    else Available
  }

  /** Append `port` to the list its verdict selects. */
  function Record(scan: PortScan, port: nat, status: PortStatus): PortScan
  {
    match status
    case NotOpened => scan.(nonWorking := scan.nonWorking + [port])
    case Working => scan.(working := scan.working + [port])
    case Available => scan.(available := scan.available + [port])
  }

  /** The lists after probing ports `0 .. n - 1` in ascending order. */
  function ScanPrefix(isOpened: nat -> bool, readOk: nat -> bool, n: nat): (scan: PortScan)
    ensures |scan.available| + |scan.working| + |scan.nonWorking| == n
  {
    if n == 0 then PortScan([], [], [])
    else Record(ScanPrefix(isOpened, readOk, n - 1), n - 1, Classify(isOpened, readOk, n - 1))
  }

  /** How many of the ports `0 .. n - 1` fail to open. */
  function Failures(isOpened: nat -> bool, n: nat): (count: nat)
    ensures count <= n
  {
    if n == 0 then 0
    else Failures(isOpened, n - 1) + (if isOpened(n - 1) then 0 else 1)
  }

  /** After probing `n` ports the scan stops: the sixth failure has just
      happened, at port `n - 1`. */
  predicate IsStopPoint(isOpened: nat -> bool, n: nat)
  {
    0 < n && !isOpened(n - 1) && Failures(isOpened, n) == StopAfterFailures
  }

  /** `s` is strictly increasing. */
  predicate Ascending(s: seq<nat>)
  {
    forall i, j :: 0 <= i < j < |s| ==> s[i] < s[j]
  }

  /** The scan loop.  `horizon` is a proof-only bound below which six ports
      fail to open; without such a bound the source loops forever. */
  method GetWebcamStatus(isOpened: nat -> bool, readOk: nat -> bool, ghost horizon: nat)
    returns (available: seq<nat>, working: seq<nat>, nonWorking: seq<nat>)
    requires StopAfterFailures <= Failures(isOpened, horizon)
    ensures IsStopPoint(isOpened, |available| + |working| + |nonWorking|)
    ensures PortScan(available, working, nonWorking)
            == ScanPrefix(isOpened, readOk, |available| + |working| + |nonWorking|)
    ensures |nonWorking| == StopAfterFailures
    ensures nonWorking[|nonWorking| - 1] == |available| + |working| + |nonWorking| - 1
  {
    available, working, nonWorking := [], [], [];
    var devPort: nat := 0;
    while |nonWorking| < StopAfterFailures
      invariant PortScan(available, working, nonWorking) == ScanPrefix(isOpened, readOk, devPort)
      invariant |available| + |working| + |nonWorking| == devPort
      invariant |nonWorking| == Failures(isOpened, devPort) <= StopAfterFailures
      invariant |nonWorking| == StopAfterFailures ==> 0 < devPort && !isOpened(devPort - 1)
      invariant devPort <= horizon
      decreases horizon - devPort
    {
      FailuresMonotone(isOpened, devPort, horizon);
      if !isOpened(devPort) {
        nonWorking := nonWorking + [devPort];
      } else {
        var isReading := readOk(devPort);
        if isReading {
          working := working + [devPort];
        } else {
          available := available + [devPort];
        }
      }
      devPort := devPort + 1;
    }
  }

  /** More ports probed means no fewer failures. */
  lemma {:induction false} FailuresMonotone(isOpened: nat -> bool, m: nat, n: nat)
    requires m <= n
    ensures Failures(isOpened, m) <= Failures(isOpened, n)
    decreases n
  {
    if m < n {
      FailuresMonotone(isOpened, m, n - 1);
    }
  }

  /** Each probed port is in exactly the list its verdict selects, and no
      list holds an unprobed port. */
  lemma {:induction false} ScanClassifies(isOpened: nat -> bool, readOk: nat -> bool, n: nat, port: nat)
    ensures var scan := ScanPrefix(isOpened, readOk, n);
            && (port in scan.nonWorking <==> port < n && !isOpened(port))
            && (port in scan.working <==> port < n && isOpened(port) && readOk(port))
            && (port in scan.available <==> port < n && isOpened(port) && !readOk(port))
  {
    if n > 0 {
      ScanClassifies(isOpened, readOk, n - 1, port);
    }
  }

  /** The three lists are pairwise disjoint and together hold exactly the
      ports `0 .. n - 1`: every probed port is recorded once, none skipped. */
  lemma {:induction false} ScanPartitions(isOpened: nat -> bool, readOk: nat -> bool, n: nat)
    ensures var scan := ScanPrefix(isOpened, readOk, n);
            && (forall p: nat :: p in scan.available || p in scan.working || p in scan.nonWorking <==> p < n)
            && (forall p :: !(p in scan.available && p in scan.working))
            && (forall p :: !(p in scan.available && p in scan.nonWorking))
            && (forall p :: !(p in scan.working && p in scan.nonWorking))
  {
    forall port: nat {
      ScanClassifies(isOpened, readOk, n, port);
    }
  }

  /** No list holds a port that was not probed. */
  lemma {:induction false} ScanBelow(isOpened: nat -> bool, readOk: nat -> bool, n: nat)
    ensures var scan := ScanPrefix(isOpened, readOk, n);
            forall port :: port in scan.available || port in scan.working || port in scan.nonWorking ==> port < n
  {
    forall port | port in ScanPrefix(isOpened, readOk, n).available
                  || port in ScanPrefix(isOpened, readOk, n).working
                  || port in ScanPrefix(isOpened, readOk, n).nonWorking
      ensures port < n
    {
      ScanClassifies(isOpened, readOk, n, port);
    }
  }

  /** Appending a port above every listed one keeps a list increasing. */
  lemma {:induction false} AppendAscending(s: seq<nat>, port: nat)
    requires Ascending(s)
    requires forall q :: q in s ==> q < port
    ensures Ascending(s + [port])
  {
    forall i, j | 0 <= i < j < |s + [port]|
      ensures (s + [port])[i] < (s + [port])[j]
    {
      if j == |s| {
        assert s[i] in s;
      }
    }
  }

  /** Every list of the scan is strictly increasing. */
  predicate AllAscending(scan: PortScan)
  {
    Ascending(scan.available) && Ascending(scan.working) && Ascending(scan.nonWorking)
  }

  /** Recording a port above every listed one keeps the lists increasing
      and lengthens exactly one of them. */
  lemma {:induction false} RecordAscending(scan: PortScan, port: nat, status: PortStatus)
    requires AllAscending(scan)
    requires forall q :: q in scan.available || q in scan.working || q in scan.nonWorking ==> q < port
    ensures AllAscending(Record(scan, port, status))
    ensures var next := Record(scan, port, status);
            |next.available| + |next.working| + |next.nonWorking|
            == |scan.available| + |scan.working| + |scan.nonWorking| + 1
  {
    match status
    case NotOpened => AppendAscending(scan.nonWorking, port);
    case Working => AppendAscending(scan.working, port);
    case Available => AppendAscending(scan.available, port);
  }

  /** Ports are probed from 0 upwards and appended as probed, so each list
      is strictly increasing, and the lengths add up to the ports probed. */
  lemma {:induction false} ScanAscending(isOpened: nat -> bool, readOk: nat -> bool, n: nat)
    ensures var scan := ScanPrefix(isOpened, readOk, n);
            && Ascending(scan.available) && Ascending(scan.working) && Ascending(scan.nonWorking)
            && |scan.available| + |scan.working| + |scan.nonWorking| == n
  {
    if n > 0 {
      ScanAscending(isOpened, readOk, n - 1);
      ScanBelow(isOpened, readOk, n - 1);
      RecordAscending(ScanPrefix(isOpened, readOk, n - 1), n - 1, Classify(isOpened, readOk, n - 1));
    }
  }

  /** The non-working list counts every port that failed to open so far,
      not only a run of consecutive failures. */
  lemma {:induction false} NonWorkingCountsFailures(isOpened: nat -> bool, readOk: nat -> bool, n: nat)
    ensures |ScanPrefix(isOpened, readOk, n).nonWorking| == Failures(isOpened, n)
  {
    if n > 0 {
      NonWorkingCountsFailures(isOpened, readOk, n - 1);
    }
  }

  /** The scan stops at the first moment six ports have failed: at every
      earlier port fewer than six had failed, so the loop went on. */
  lemma {:induction false} StopIsFirst(isOpened: nat -> bool, n: nat, m: nat)
    requires IsStopPoint(isOpened, n)
    requires m < n
    ensures Failures(isOpened, m) < StopAfterFailures
  {
    FailuresMonotone(isOpened, m, n - 1);
  }

  /** There is at most one stopping point, so the result is determined by
      the oracles alone. */
  lemma {:induction false} StopPointUnique(isOpened: nat -> bool, m: nat, n: nat)
    requires IsStopPoint(isOpened, m) && IsStopPoint(isOpened, n)
    ensures m == n
  {
    if m < n {
      StopIsFirst(isOpened, n, m);
    } else if n < m {
      StopIsFirst(isOpened, m, n);
    }
  }

  /** With no device at all, ports 0 to 5 are probed, all are non-working,
      and the scan stops after port 5. */
  lemma {:induction false} NoDevices(readOk: nat -> bool)
    ensures var closed := (p: nat) => false;
            && IsStopPoint(closed, 6)
            && ScanPrefix(closed, readOk, 6) == PortScan([], [], [0, 1, 2, 3, 4, 5])
  {
  }

  /** The stopping rule counts failures in all, not in a row: when every
      odd port holds a working camera, no two failures are ever adjacent,
      yet the scan stops after port 10, the sixth even port. */
  lemma {:induction false} FailuresNeedNotBeConsecutive()
    ensures var oddOpens := (p: nat) => p % 2 == 1;
            var alwaysReads := (p: nat) => true;
            && (forall p: nat :: !oddOpens(p) ==> oddOpens(p + 1))
            && IsStopPoint(oddOpens, 11)
            && ScanPrefix(oddOpens, alwaysReads, 11) == PortScan([], [1, 3, 5, 7, 9], [0, 2, 4, 6, 8, 10])
  {
  }
}

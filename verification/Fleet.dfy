/**
 The fleet overview (tools/status-board/main.go, computeFleet and resticBucket). Floats are modelled
 as reals, and of a scraped VM only the fields that are aggregated are kept.
 */
module Fleet {
  import opened Common

  datatype Restic = Restic(configured: bool, present: string, snapshots: int, ageHours: real)

  datatype VMStat = VMStat(
    reachable: bool, load1: real, cpuCount: int, cpuBusy: real, memUsed: int, memTotal: int,
    fsUsed: int, fsTotal: int, netRxBps: real, netTxBps: real, tsUp: bool, restic: Restic)

  datatype Bucket = OK | Warn | Bad | Off

  datatype Overview = Overview(
    vmsTotal: int, vmsReachable: int, tsUp: int, tsDown: int, loadSum: real, cpuCountSum: int, cpuBusyAvg: real,
    memUsedSum: int, memTotalSum: int, fsUsedSum: int, fsTotalSum: int, netRxBps: real, netTxBps: real,
    backupsOK: int, backupsWarn: int, backupsBad: int, backupsOff: int)

  function ResticBucket(r: Restic): Bucket {
    if !r.configured then Off
    else if r.present == "no" || r.snapshots == 0 then (if r.present == "no" then Bad else Warn)
    else if r.ageHours > 48.0 then Bad
    else if r.ageHours > 26.0 then Warn
    else OK
  }

  /** How grave a backup's state is. */
  function Gravity(b: Bucket): nat {
    match b
    case Off => 0
    case OK => 1
    case Warn => 2
    case Bad => 3
  }

  /**
   A configured backup is bad when there is none or the last one is more than two days old, in doubt when it has no
   snapshot or the last one is more than 26 hours old. As it ages it never gets better, and one that does not exist is
   no better than one that does.
   */
  lemma BucketMeaning(r: Restic, older: real)
    requires older >= r.ageHours
    ensures ResticBucket(r) == Off <==> !r.configured
    ensures ResticBucket(r) == Bad <==> r.configured && (r.present == "no" || (r.snapshots != 0 && r.ageHours > 48.0))
    ensures ResticBucket(r) == OK <==> r.configured && r.present != "no" && r.snapshots != 0 && r.ageHours <= 26.0
    ensures Gravity(ResticBucket(r)) <= Gravity(ResticBucket(r.(ageHours := older)))
    ensures Gravity(ResticBucket(r)) <= Gravity(ResticBucket(r.(present := "no")))
  {
  }

  // ---------- reference definition ----------

  function Count(vms: seq<VMStat>, p: VMStat -> bool): int {
    if vms == [] then 0 else Count(vms[..|vms| - 1], p) + if p(vms[|vms| - 1]) then 1 else 0
  }

  function SumInt(vms: seq<VMStat>, p: VMStat -> bool, f: VMStat -> int): int {
    if vms == [] then 0 else SumInt(vms[..|vms| - 1], p, f) + if p(vms[|vms| - 1]) then f(vms[|vms| - 1]) else 0
  }

  function SumReal(vms: seq<VMStat>, p: VMStat -> bool, f: VMStat -> real): real {
    if vms == [] then 0.0 else SumReal(vms[..|vms| - 1], p, f) + if p(vms[|vms| - 1]) then f(vms[|vms| - 1]) else 0.0
  }

  const REACHABLE := (v: VMStat) => v.reachable
  const BUSY := (v: VMStat) => v.reachable && v.cpuCount > 0
  const TS_UP := (v: VMStat) => v.tsUp
  const TS_DOWN := (v: VMStat) => !v.tsUp
  const BACKUP_OK := (v: VMStat) => ResticBucket(v.restic) == OK
  const BACKUP_WARN := (v: VMStat) => ResticBucket(v.restic) == Warn
  const BACKUP_BAD := (v: VMStat) => ResticBucket(v.restic) == Bad
  const BACKUP_OFF := (v: VMStat) => ResticBucket(v.restic) == Off
  const CPU_BUSY := (v: VMStat) => v.cpuBusy

  /** The overview before the average is taken: `cpuBusyAvg` is still a sum. */
  function Sums(vms: seq<VMStat>): Overview {
    Overview(
      |vms|, Count(vms, REACHABLE), Count(vms, TS_UP), Count(vms, TS_DOWN),
      SumReal(vms, REACHABLE, (v: VMStat) => v.load1), SumInt(vms, REACHABLE, (v: VMStat) => v.cpuCount),
      SumReal(vms, BUSY, CPU_BUSY),
      SumInt(vms, REACHABLE, (v: VMStat) => v.memUsed), SumInt(vms, REACHABLE, (v: VMStat) => v.memTotal),
      SumInt(vms, REACHABLE, (v: VMStat) => v.fsUsed), SumInt(vms, REACHABLE, (v: VMStat) => v.fsTotal),
      SumReal(vms, REACHABLE, (v: VMStat) => v.netRxBps), SumReal(vms, REACHABLE, (v: VMStat) => v.netTxBps),
      Count(vms, BACKUP_OK), Count(vms, BACKUP_WARN), Count(vms, BACKUP_BAD), Count(vms, BACKUP_OFF))
  }

  function Of(vms: seq<VMStat>): Overview {
    var s := Sums(vms);
    var n := Count(vms, BUSY);
    if n > 0 then s.(cpuBusyAvg := s.cpuBusyAvg / n as real) else s
  }

  const ZERO: Overview := Overview(0, 0, 0, 0, 0.0, 0, 0.0, 0, 0, 0, 0, 0.0, 0.0, 0, 0, 0, 0)

  function AddScrape(f: Overview, v: VMStat): Overview {
    if v.reachable then
      f.(vmsReachable := f.vmsReachable + 1, loadSum := f.loadSum + v.load1,
         cpuCountSum := f.cpuCountSum + v.cpuCount,
         cpuBusyAvg := f.cpuBusyAvg + (if v.cpuCount > 0 then v.cpuBusy else 0.0),
         memUsedSum := f.memUsedSum + v.memUsed, memTotalSum := f.memTotalSum + v.memTotal,
         fsUsedSum := f.fsUsedSum + v.fsUsed, fsTotalSum := f.fsTotalSum + v.fsTotal,
         netRxBps := f.netRxBps + v.netRxBps, netTxBps := f.netTxBps + v.netTxBps)
    else f
  }

  function AddStates(f: Overview, v: VMStat): Overview {
    var t := if v.tsUp then f.(tsUp := f.tsUp + 1) else f.(tsDown := f.tsDown + 1);
    match ResticBucket(v.restic)
    case OK => t.(backupsOK := t.backupsOK + 1)
    case Warn => t.(backupsWarn := t.backupsWarn + 1)
    case Bad => t.(backupsBad := t.backupsBad + 1)
    case Off => t.(backupsOff := t.backupsOff + 1)
  }

  /** The body of the loop: what one more VM changes. */
  function Add(f: Overview, v: VMStat): Overview {
    AddStates(AddScrape(f, v), v)
  }

  lemma SumsNext(vms: seq<VMStat>, i: nat, n: int)
    requires i < |vms|
    ensures Sums(vms[..i + 1]).(vmsTotal := n) == Add(Sums(vms[..i]).(vmsTotal := n), vms[i])
    ensures Count(vms[..i + 1], BUSY) == Count(vms[..i], BUSY) + if BUSY(vms[i]) then 1 else 0
  {
    var now := vms[..i + 1];
    assert now[..|now| - 1] == vms[..i] && now[|now| - 1] == vms[i];
  }

  method ComputeFleet(vms: seq<VMStat>) returns (f: Overview)
    ensures f == Of(vms)
  {
    f := ZERO.(vmsTotal := |vms|);
    var busyN := 0;
    for i := 0 to |vms|
      invariant f == Sums(vms[..i]).(vmsTotal := |vms|)
      invariant busyN == Count(vms[..i], BUSY)
    {
      var v := vms[i];
      SumsNext(vms, i, |vms|);
      f := Add(f, v);
      if v.reachable && v.cpuCount > 0 {
        busyN := busyN + 1;
      }
    }
    assert vms[..|vms|] == vms;
    assert f == Sums(vms);
    if busyN > 0 {
      f := f.(cpuBusyAvg := f.cpuBusyAvg / busyN as real);
    }
  }

  /** Nothing scraped: the overview is the zero value, as in a cache not yet filled. */
  lemma OfNothing()
    ensures Of([]) == ZERO
  {
  }

  /** Every VM is counted once by tailscale state and once by backup state. */
  lemma {:induction false} Partitioned(vms: seq<VMStat>)
    ensures var f := Of(vms);
      && f.tsUp + f.tsDown == f.vmsTotal
      && f.backupsOK + f.backupsWarn + f.backupsBad + f.backupsOff == f.vmsTotal
      && 0 <= Count(vms, BUSY) <= f.vmsReachable <= f.vmsTotal
  {
    if vms != [] {
      Partitioned(vms[..|vms| - 1]);
    }
  }

  /** What the overview of one VM shows: a VM that is not reachable counts for nothing but its states. */
  lemma OneVM(v: VMStat)
    ensures var f := Of([v]);
      && f.vmsTotal == 1 && f.vmsReachable == (if v.reachable then 1 else 0)
      && f.tsUp == (if v.tsUp then 1 else 0) && f.tsDown == (if v.tsUp then 0 else 1)
      && f.backupsOK == (if ResticBucket(v.restic) == OK then 1 else 0)
      && f.backupsWarn == (if ResticBucket(v.restic) == Warn then 1 else 0)
      && f.backupsBad == (if ResticBucket(v.restic) == Bad then 1 else 0)
      && f.backupsOff == (if ResticBucket(v.restic) == Off then 1 else 0)
      && (if v.reachable then
            && f.loadSum == v.load1 && f.cpuCountSum == v.cpuCount
            && f.memUsedSum == v.memUsed && f.memTotalSum == v.memTotal
            && f.fsUsedSum == v.fsUsed && f.fsTotalSum == v.fsTotal
            && f.netRxBps == v.netRxBps && f.netTxBps == v.netTxBps
            && f.cpuBusyAvg == if v.cpuCount > 0 then v.cpuBusy else 0.0
          else
            && f.loadSum == 0.0 && f.cpuCountSum == 0 && f.memUsedSum == 0 && f.memTotalSum == 0
            && f.fsUsedSum == 0 && f.fsTotalSum == 0 && f.netRxBps == 0.0 && f.netTxBps == 0.0 && f.cpuBusyAvg == 0.0)
  {
    SumsNext([v], 0, 1);
    assert [v][..0] == [] && [v][..1] == [v];
  }

  /** All figures but the average, which is kept as the busy VMs and their sum. */
  ghost predicate AddUp(f: Overview, g: Overview, h: Overview) {
    && h.vmsTotal == f.vmsTotal + g.vmsTotal && h.vmsReachable == f.vmsReachable + g.vmsReachable
    && h.tsUp == f.tsUp + g.tsUp && h.tsDown == f.tsDown + g.tsDown
    && h.loadSum == f.loadSum + g.loadSum && h.cpuCountSum == f.cpuCountSum + g.cpuCountSum
    && h.memUsedSum == f.memUsedSum + g.memUsedSum && h.memTotalSum == f.memTotalSum + g.memTotalSum
    && h.fsUsedSum == f.fsUsedSum + g.fsUsedSum && h.fsTotalSum == f.fsTotalSum + g.fsTotalSum
    && h.netRxBps == f.netRxBps + g.netRxBps && h.netTxBps == f.netTxBps + g.netTxBps
    && h.backupsOK == f.backupsOK + g.backupsOK && h.backupsWarn == f.backupsWarn + g.backupsWarn
    && h.backupsBad == f.backupsBad + g.backupsBad && h.backupsOff == f.backupsOff + g.backupsOff
  }

  /** The average times the VMs it is taken over. */
  function Load(vms: seq<VMStat>): real {
    Of(vms).cpuBusyAvg * Count(vms, BUSY) as real
  }

  lemma AverageTimes(vms: seq<VMStat>)
    ensures Load(vms) == SumReal(vms, BUSY, CPU_BUSY)
  {
    NoneBusy(vms);
    var n, sum := Count(vms, BUSY), SumReal(vms, BUSY, CPU_BUSY);
    if n > 0 {
      assert sum / n as real * n as real == sum;
    }
  }

  /** One fleet after another: the figures add up. */
  lemma FleetsAdd(a: seq<VMStat>, b: seq<VMStat>)
    ensures AddUp(Of(a), Of(b), Of(a + b))
  {
    SumsAdd(a, b);
  }

  /** And the average is weighted by the busy VMs. */
  lemma AveragesAdd(a: seq<VMStat>, b: seq<VMStat>)
    ensures Count(a + b, BUSY) == Count(a, BUSY) + Count(b, BUSY)
    ensures Load(a + b) == Load(a) + Load(b)
  {
    SumsAdd(a, b);
    AverageTimes(a);
    AverageTimes(b);
    AverageTimes(a + b);
  }

  lemma SumsSnoc(vms: seq<VMStat>, v: VMStat)
    ensures Sums(vms + [v]).(vmsTotal := 0) == Add(Sums(vms).(vmsTotal := 0), v)
    ensures Count(vms + [v], BUSY) == Count(vms, BUSY) + if BUSY(v) then 1 else 0
  {
    var all := vms + [v];
    SumsNext(all, |vms|, 0);
    assert all[..|vms|] == vms && all[..|all|] == all;
  }

  ghost predicate AllAddUp(f: Overview, g: Overview, h: Overview) {
    AddUp(f, g, h) && h.cpuBusyAvg == f.cpuBusyAvg + g.cpuBusyAvg
  }

  lemma ScrapeMore(f: Overview, g: Overview, h: Overview, v: VMStat)
    requires AllAddUp(f, g, h)
    ensures AllAddUp(f, AddScrape(g, v), AddScrape(h, v))
  {
  }

  lemma StatesMore(f: Overview, g: Overview, h: Overview, v: VMStat)
    requires AllAddUp(f, g, h)
    ensures AllAddUp(f, AddStates(g, v), AddStates(h, v))
  {
  }

  lemma {:induction false} SumsAdd(a: seq<VMStat>, b: seq<VMStat>)
    ensures AllAddUp(Sums(a), Sums(b), Sums(a + b))
    ensures Count(a + b, BUSY) == Count(a, BUSY) + Count(b, BUSY)
  {
    if b == [] {
      assert a + b == a;
    } else {
      var init, v := b[..|b| - 1], b[|b| - 1];
      SumsAdd(a, init);
      SumsSnoc(init, v);
      SumsSnoc(a + init, v);
      Assoc(a, init, [v]);
      assert init + [v] == b;
      var f, g, h := Sums(a).(vmsTotal := 0), Sums(init).(vmsTotal := 0), Sums(a + init).(vmsTotal := 0);
      ScrapeMore(f, g, h, v);
      StatesMore(f, AddScrape(g, v), AddScrape(h, v), v);
    }
  }

  lemma {:induction false} BusySum(vms: seq<VMStat>, low: real, high: real)
    requires forall v :: v in vms && BUSY(v) ==> low <= v.cpuBusy <= high
    ensures Count(vms, BUSY) as real * low <= SumReal(vms, BUSY, CPU_BUSY) <= Count(vms, BUSY) as real * high
  {
    if vms != [] {
      BusySum(vms[..|vms| - 1], low, high);
      OneMore(Count(vms[..|vms| - 1], BUSY), low);
      OneMore(Count(vms[..|vms| - 1], BUSY), high);
    }
  }

  lemma OneMore(n: int, x: real)
    ensures (n + 1) as real * x == n as real * x + x
  {
  }

  /** The average lies between the smallest and the largest value averaged, and is 0 when there is none. */
  lemma AverageWithin(vms: seq<VMStat>, low: real, high: real)
    requires forall v :: v in vms && BUSY(v) ==> low <= v.cpuBusy <= high
    ensures if Count(vms, BUSY) > 0 then low <= Of(vms).cpuBusyAvg <= high else Of(vms).cpuBusyAvg == 0.0
  {
    BusySum(vms, low, high);
    if Count(vms, BUSY) > 0 {
      Average(SumReal(vms, BUSY, CPU_BUSY), Count(vms, BUSY) as real, low, high);
    } else {
      NoneBusy(vms);
    }
  }

  lemma Average(sum: real, n: real, low: real, high: real)
    requires n > 0.0 && n * low <= sum <= n * high
    ensures low <= sum / n <= high
  {
  }

  lemma {:induction false} NoneBusy(vms: seq<VMStat>)
    ensures Count(vms, BUSY) >= 0
    ensures Count(vms, BUSY) == 0 ==> SumReal(vms, BUSY, CPU_BUSY) == 0.0
  {
    if vms != [] {
      NoneBusy(vms[..|vms| - 1]);
    }
  }

  /** A VM that reports no CPU reports no load on it. */
  ghost predicate IdleWithoutCPU(vms: seq<VMStat>) {
    forall v :: v in vms && v.reachable && v.cpuCount <= 0 ==> v.cpuBusy == 0.0
  }

  /** The mean over reachable VMs, which the field's comment in the source promises. */
  function MeanReachable(vms: seq<VMStat>): real
    requires Count(vms, REACHABLE) > 0
  {
    SumReal(vms, REACHABLE, CPU_BUSY) / Count(vms, REACHABLE) as real
  }

  lemma {:induction false} SameBusySum(vms: seq<VMStat>)
    requires IdleWithoutCPU(vms)
    ensures SumReal(vms, REACHABLE, CPU_BUSY) == SumReal(vms, BUSY, CPU_BUSY)
  {
    if vms != [] {
      var init, last := vms[..|vms| - 1], vms[|vms| - 1];
      assert last in vms && forall v :: v in init ==> v in vms;
      SameBusySum(init);
    }
  }

  /** The average is that mean exactly when every reachable VM reports a CPU, or none of them is busy at all. */
  lemma MeanReachableIff(vms: seq<VMStat>)
    requires IdleWithoutCPU(vms) && Count(vms, REACHABLE) > 0
    ensures Of(vms).cpuBusyAvg == MeanReachable(vms) <==>
              Count(vms, BUSY) == Count(vms, REACHABLE) || SumReal(vms, BUSY, CPU_BUSY) == 0.0
  {
    SameBusySum(vms);
    Partitioned(vms);
    NoneBusy(vms);
    var sum, n, m := SumReal(vms, BUSY, CPU_BUSY), Count(vms, BUSY), Count(vms, REACHABLE);
    if n > 0 {
      SameQuotient(sum, n as real, m as real);
    }
  }

  lemma SameQuotient(sum: real, n: real, m: real)
    requires n > 0.0 && m > 0.0
    ensures sum / n == sum / m <==> n == m || sum == 0.0
  {
    var a, b := sum / n, sum / m;
    assert a * n == sum && b * m == sum;
    if a == b && sum != 0.0 {
      assert a * (n - m) == 0.0;
      assert a != 0.0;
    }
  }

  /** One VM half busy and one that reports no CPU: the average is a half, the mean a quarter. */
  lemma HalfBusy(vms: seq<VMStat>, busy: VMStat, bare: VMStat)
    requires vms == [busy, bare] && busy.reachable && busy.cpuCount == 4 && busy.cpuBusy == 0.5
    requires bare.reachable && bare.cpuCount == 0 && bare.cpuBusy == 0.0
    ensures IdleWithoutCPU(vms) && Of(vms).cpuBusyAvg == 0.5
    ensures Count(vms, REACHABLE) == 2 && MeanReachable(vms) == 0.25
  {
    CountTwo(vms, BUSY);
    CountTwo(vms, REACHABLE);
    SumTwo(vms, BUSY, CPU_BUSY);
    SumTwo(vms, REACHABLE, CPU_BUSY);
  }

  lemma CountTwo(vms: seq<VMStat>, p: VMStat -> bool)
    requires |vms| == 2
    ensures Count(vms, p) == (if p(vms[0]) then 1 else 0) + (if p(vms[1]) then 1 else 0)
  {
    assert vms[..1][..0] == [];
    assert Count(vms[..1], p) == if p(vms[0]) then 1 else 0;
  }

  lemma SumTwo(vms: seq<VMStat>, p: VMStat -> bool, f: VMStat -> real)
    requires |vms| == 2
    ensures SumReal(vms, p, f) == (if p(vms[0]) then f(vms[0]) else 0.0) + (if p(vms[1]) then f(vms[1]) else 0.0)
  {
    assert vms[..1][..0] == [];
    assert SumReal(vms[..1], p, f) == if p(vms[0]) then f(vms[0]) else 0.0;
  }
}

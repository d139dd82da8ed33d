/** The arithmetic of the xdist worker budget: memory readings bound a worker count. */
module WorkerBudget {
  import opened Wrappers

  const GIB_PER_WORKER := 2
  const GIB_PER_WORKER_AVAILABLE := 2
  const DEFAULT_WORKER_CAP := 32

  /** A memory reading in MiB (0 = could not be determined) and the GiB a worker needs. */
  datatype Reading = Reading(mib: int, gibPerWorker: int)

  predicate UsableReadings(readings: seq<Reading>) {
    forall r | r in readings :: r.gibPerWorker > 0
  }

  function Min(a: int, b: int): int { if a <= b then a else b }

  function Max(a: int, b: int): int { if a >= b then a else b }

  /** limit after one reading. */
  function Reduce(limit: int, r: Reading): int
    requires r.gibPerWorker > 0
  {
    if r.mib > 0 then Min(limit, Max(1, r.mib / (r.gibPerWorker * 1024))) else limit
  }

  function ReduceAll(limit: int, readings: seq<Reading>): int
    requires UsableReadings(readings)
  {
    if readings == [] then limit else ReduceAll(Reduce(limit, readings[0]), readings[1..])
  }

  function BoundedBy(limit: int, readings: seq<Reading>): int
    requires UsableReadings(readings)
  {
    Max(1, ReduceAll(limit, readings))
  }

  /** The loop of _bounded_by. */
  method ComputeBoundedBy(limit: int, readings: seq<Reading>) returns (bound: int)
    requires UsableReadings(readings)
    ensures bound == BoundedBy(limit, readings)
  {
    bound := limit;
    for i := 0 to |readings|
      invariant ReduceAll(limit, readings) == ReduceAll(bound, readings[i..])
    {
      var r := readings[i];
      if r.mib > 0 {
        bound := Min(bound, Max(1, r.mib / (r.gibPerWorker * 1024)));
      }
      assert readings[i..][1..] == readings[i + 1..];
    }
    bound := Max(1, bound);
  }

  /** w workers fit in every reading that is known. */
  ghost predicate Fits(w: int, readings: seq<Reading>) {
    forall r | r in readings && r.mib > 0 :: w * (r.gibPerWorker * 1024) <= r.mib
  }

  lemma QuotientIsLargest(w: int, m: int, d: int)
    requires d > 0
    ensures w <= m / d <==> w * d <= m
  {
    var q := m / d;
    assert q * d <= m < q * d + d;
    if w <= q {
      assert (q - w) * d >= 0;
    } else {
      assert (w - q - 1) * d >= 0;
    }
  }

  lemma {:induction false} ReduceAllGalois(w: int, limit: int, readings: seq<Reading>)
    requires UsableReadings(readings) && w > 1
    ensures w <= ReduceAll(limit, readings) <==> w <= limit && Fits(w, readings)
  {
    if readings == [] {
    } else {
      var r := readings[0];
      ReduceAllGalois(w, Reduce(limit, r), readings[1..]);
      if r.mib > 0 { QuotientIsLargest(w, r.mib, r.gibPerWorker * 1024); }
      assert readings == [r] + readings[1..];
    }
  }

  /** _bounded_by is the greatest worker count not above the limit for which every KNOWN reading
      has room, floored at one: an unknown reading never lowers it. */
  lemma BoundedByIsGreatestFit(w: int, limit: int, readings: seq<Reading>)
    requires UsableReadings(readings) && w >= 1
    ensures w <= BoundedBy(limit, readings) <==> w == 1 || (w <= limit && Fits(w, readings))
  {
    if w > 1 { ReduceAllGalois(w, limit, readings); }
  }

  /** The readings that are constant for the machine. Total RAM is truncated to whole GiB first. */
  function StaticReadings(totalMib: int, cgroupMib: int): seq<Reading> {
    [Reading(totalMib / 1024 * 1024, GIB_PER_WORKER), Reading(cgroupMib, GIB_PER_WORKER)]
  }

  function StaticMemoryBoundedCapacity(cores: int, totalMib: int, cgroupMib: int): int {
    BoundedBy(cores, StaticReadings(totalMib, cgroupMib))
  }

  function LiveMemoryBoundedCap(cap: int, availableMib: int): int {
    BoundedBy(cap, [Reading(availableMib, GIB_PER_WORKER_AVAILABLE)])
  }

  /** What one run reads from its environment before it claims. An environment variable is None
      when it is unset or not an integer; cpuCount is None when it is unknown. */
  datatype Host = Host(cpuCount: Option<nat>, totalMib: nat, cgroupMib: nat)
  datatype Environment = Environment(maxWorkers: Option<int>, xdistCap: Option<int>, availableMib: nat)

  function Cores(host: Host): nat {
    if host.cpuCount.Some? && host.cpuCount.value != 0 then host.cpuCount.value else 1
  }

  function IntEnv(v: Option<int>, default: int): int {
    if v.Some? then v.value else default
  }

  function Unbudgeted(host: Host, env: Environment): int {
    Min(Cores(host), Max(1, IntEnv(env.maxWorkers, DEFAULT_WORKER_CAP)))
  }

  function Capacity(host: Host): int {
    StaticMemoryBoundedCapacity(Cores(host), host.totalMib, host.cgroupMib)
  }

  function RunCap(host: Host, env: Environment): int {
    var rawEnvCap := IntEnv(env.xdistCap, 0);
    var unbudgeted := Unbudgeted(host, env);
    var envCap := if rawEnvCap > 0 then rawEnvCap else unbudgeted;
    LiveMemoryBoundedCap(Min(Min(Capacity(host), unbudgeted), envCap), env.availableMib)
  }

  /** A known count of at least one. */
  predicate Known(cpus: Option<nat>) { cpus.Some? && cpus.value > 0 }

  /** The shared range: at least one, and otherwise the greatest count within the cores (one if unknown), the
      total RAM in whole GiB if there is one, and a known cgroup ceiling, at 2 GiB a worker. */
  lemma CapacityIsGreatest(host: Host, w: int)
    requires w >= 1
    ensures w <= Capacity(host) <==>
            w == 1
            || (&& Known(host.cpuCount) && w <= host.cpuCount.value
                && (host.totalMib / 1024 > 0 ==> w * 2 <= host.totalMib / 1024)
                && (host.cgroupMib > 0 ==> w * 2048 <= host.cgroupMib))
  {
    var readings := StaticReadings(host.totalMib, host.cgroupMib);
    BoundedByIsGreatestFit(w, Cores(host), readings);
    assert readings[0] in readings && readings[1] in readings;
  }

  /** The per-run cap is the greatest count within the shared range, the ceiling of the environment (32 if it
      gives none), a positive xdist ceiling and the live reading at 2 GiB a worker if there is one, floored at
      one. A zero or negative xdist variable is inert. */
  lemma RunCapIsTightest(host: Host, env: Environment, w: int)
    requires w >= 1
    ensures 1 <= RunCap(host, env) <= Capacity(host)
    ensures w <= RunCap(host, env) <==>
            w == 1
            || (&& w <= Capacity(host)
                && (match env.maxWorkers case None => w <= 32 case Some(n) => w <= n)
                && (env.xdistCap.Some? && env.xdistCap.value > 0 ==> w <= env.xdistCap.value)
                && (env.availableMib > 0 ==> w * 2048 <= env.availableMib))
  {
    var unbudgeted := Unbudgeted(host, env);
    var envCap := IntEnv(env.xdistCap, 0);
    var ceiling := Min(Min(Capacity(host), unbudgeted), if envCap > 0 then envCap else unbudgeted);
    var live := [Reading(env.availableMib, GIB_PER_WORKER_AVAILABLE)];
    BoundedByIsGreatestFit(w, ceiling, live);
    BoundedByIsGreatestFit(RunCap(host, env), ceiling, live);
    CapacityIsGreatest(host, w);
    assert live[0] in live;
  }

  /** The shared range fits the machine: unless it is the one-worker floor, every constant reading
      that is known (total RAM of at least 1 GiB, a cgroup ceiling) holds all its workers. */
  lemma CapacityFitsStaticMemory(host: Host, w: int)
    requires 1 <= w <= Capacity(host)
    ensures Capacity(host) == 1
            || (&& w <= Cores(host)
                && (host.totalMib >= 1024 ==> w * 2048 <= host.totalMib)
                && (host.cgroupMib > 0 ==> w * 2048 <= host.cgroupMib))
  {
    CapacityIsGreatest(host, Capacity(host));
  }
}

/**
 * The hardware checks of `status.rs` (and, identically, of
 * `handlers/status.rs`): free storage from the disks' sums and the battery
 * charge. The disk and battery queries are inputs; the battery's charge
 * arrives already scaled to a whole percentage.
 */
module Status {
  import opened Wrappers

  /** One disk as `sysinfo` reports it, in bytes. */
  datatype Disk = Disk(available: nat, total: nat)

  function AvailableSpace(disks: seq<Disk>): nat {
    if disks == [] then 0 else disks[0].available + AvailableSpace(disks[1..])
  }

  function TotalSpace(disks: seq<Disk>): nat {
    if disks == [] then 0 else disks[0].total + TotalSpace(disks[1..])
  }

  /** A disk never has more space available than it has in total. */
  predicate Consistent(disks: seq<Disk>) {
    forall i :: 0 <= i < |disks| ==> disks[i].available <= disks[i].total
  }

  lemma {:induction false} AvailableWithinTotal(disks: seq<Disk>)
    requires Consistent(disks)
    ensures AvailableSpace(disks) <= TotalSpace(disks)
    decreases |disks|
  {
    if disks != [] {
      AvailableWithinTotal(disks[1..]);
    }
  }

  /** `(total / available) as u8`: the quotient, truncated to eight bits. */
  function RatioByte(total: nat, available: nat): (q: byte)
    requires available > 0
  {
    (total / available) % 256
  }

  /**
   * `100 - (total / available) as u8` as written: the division needs some
   * available space and the `u8` subtraction needs the truncated quotient
   * to be at most 100.
   */
  function StorageAsWritten(total: nat, available: nat): (r: byte)
    requires available > 0
    requires RatioByte(total, available) <= 100
    ensures r <= 100
    ensures r == 100 <==> RatioByte(total, available) == 0
  {
    100 - RatioByte(total, available)
  }

  /** `check_storage`, over the disks the system reports. */
  function CheckStorage(disks: seq<Disk>): (r: byte)
    requires AvailableSpace(disks) > 0
    requires RatioByte(TotalSpace(disks), AvailableSpace(disks)) <= 100
    ensures r <= 100
  {
    StorageAsWritten(TotalSpace(disks), AvailableSpace(disks))
  }

  /** The result is 100 when there is more space available than in total, i.e. the quotient is 0. */
  lemma FullWhenQuotientZero(total: nat, available: nat)
    requires 0 < available && total < available
    ensures StorageAsWritten(total, available) == 100
  {
    QuotientBelow(total, available, 1);
  }

  lemma MulMonotone(a: nat, b: nat, d: nat)
    requires a <= b
    ensures a * d <= b * d
  {
  }

  /** A dividend below `k` times the divisor has a quotient below `k`. */
  lemma QuotientBelow(n: nat, d: nat, k: nat)
    requires d > 0 && n < k * d
    ensures n / d < k
  {
    var q := n / d;
    assert q * d <= n;
    if q >= k {
      MulMonotone(k, q, d);
    }
  }

  /** A dividend of at least `k` times the divisor has a quotient of at least `k`. */
  lemma QuotientAtLeast(n: nat, d: nat, k: nat)
    requires d > 0 && k * d <= n
    ensures k <= n / d
  {
    var q := n / d;
    assert n < q * d + d;
    if q < k {
      MulMonotone(q + 1, k, d);
    }
  }

  /**
   * The converse fails because of the `u8` truncation: a quotient of 256
   * also yields 100.
   */
  lemma FullWithoutZeroQuotient()
    ensures StorageAsWritten(256, 1) == 100
  {
  }

  /**
   * The formula is not the percentage of free space its documentation
   * promises: with half of a disk free it answers 98, and with one byte in a
   * thousand free the truncated quotient 232 makes the subtraction underflow.
   */
  lemma StorageIsNotAPercentage()
    ensures StorageAsWritten(100, 50) == 98 && FreeStoragePercent(100, 50) == 50
    ensures RatioByte(1000, 1) == 232
  {
  }

  /** The free space as a whole percentage of the total, as the documentation promises. */
  function FreeStoragePercent(total: nat, available: nat): (r: nat)
    requires 0 < total && available <= total
    ensures r <= 100
    ensures r == 100 <==> available == total
    ensures r == 0 <==> 100 * available < total
  {
    PercentBounds(total, available);
    available * 100 / total
  }

  lemma PercentBounds(total: nat, available: nat)
    requires 0 < total && available <= total
    ensures available * 100 / total <= 100
    ensures available * 100 / total == 100 <==> available == total
    ensures available * 100 / total == 0 <==> 100 * available < total
  {
    var n := available * 100;
    MulMonotone(available, total, 100);
    QuotientBelow(n, total, 101);
    if available == total {
      QuotientAtLeast(n, total, 100);
    } else {
      MulMonotone(available, total - 1, 100);
      QuotientBelow(n, total, 100);
    }
    if n < total {
      QuotientBelow(n, total, 1);
    } else {
      QuotientAtLeast(n, total, 1);
    }
  }

  /** More free space never gives a smaller percentage. */
  lemma FreeStorageMonotone(total: nat, a: nat, b: nat)
    requires 0 < total && a <= b <= total
    ensures FreeStoragePercent(total, a) <= FreeStoragePercent(total, b)
  {
    var qa := (a * 100) / total;
    assert qa * total <= a * 100;
    MulMonotone(a, b, 100);
    QuotientAtLeast(b * 100, total, qa);
  }

  /** `check_storage` with the intended formula, over disks with some total space. */
  function CheckStorageCorrected(disks: seq<Disk>): (r: nat)
    requires Consistent(disks) && TotalSpace(disks) > 0
    ensures r <= 100
    ensures r == 100 <==> AvailableSpace(disks) == TotalSpace(disks)
  {
    AvailableWithinTotal(disks);
    FreeStoragePercent(TotalSpace(disks), AvailableSpace(disks))
  }

  /** What the battery crate answered: a failure of the manager or the listing, or the batteries. */
  datatype BatteryQuery =
    | ManagerFailed(message: string)
    | ListFailed(message: string)
    | Batteries(batteries: seq<Result<byte, string>>)

  /** `check_power`: the first battery's charge, 100 without a battery, errors passed on. */
  function CheckPower(q: BatteryQuery): (r: Result<byte, string>)
    ensures q.Batteries? && q.batteries == [] ==> r == Ok(100)
    ensures q.ManagerFailed? || q.ListFailed? ==> r == Err(q.message)
    ensures q.Batteries? && q.batteries != [] ==> r == q.batteries[0]
  {
    match q
    case ManagerFailed(m) => Err(m)
    case ListFailed(m) => Err(m)
    case Batteries(bs) => if bs == [] then Ok(100) else bs[0]
  }

  /** Only the first battery matters: adding batteries after it changes nothing. */
  lemma FirstBatteryDecides(first: Result<byte, string>, rest: seq<Result<byte, string>>)
    ensures CheckPower(Batteries([first] + rest)) == CheckPower(Batteries([first]))
  {
  }
}

/**
 * The host uptime shown by the system monitor: seconds since boot split
 * into days, hours, minutes and seconds, and rendered as
 * `"<days> days, HH:MM:SS"`.
 */
module Uptime {
  import opened Wrappers
  import opened Arith
  import opened Decimal
  import opened Clock

  datatype UptimeParts = UptimeParts(days: int, hours: int, minutes: int, seconds: int)

  /** `int(time.time() - boot_time)`. */
  function UptimeSeconds(now: real, bootTime: real): int
  {
    Trunc(now - bootTime)
  }

  function Total(p: UptimeParts): int
  {
    p.days * 86400 + p.hours * 3600 + p.minutes * 60 + p.seconds
  }

  predicate InRange(p: UptimeParts)
  {
    0 <= p.hours < 24 && 0 <= p.minutes < 60 && 0 <= p.seconds < 60
  }

  /**
   * `days = u // 86400`, `hours = (u % 86400) // 3600`,
   * `minutes = (u % 3600) // 60`, `seconds = u % 60`: the parts add up to
   * the uptime again, and each one below days is within its clock range.
   */
  function Decompose(uptime: int): (p: UptimeParts)
    ensures Total(p) == uptime && InRange(p)
  {
    DecomposeSums(uptime);
    UptimeParts(uptime / 86400, (uptime % 86400) / 3600, (uptime % 3600) / 60, uptime % 60)
  }

  lemma DecomposeSums(u: int)
    ensures (u / 86400) * 86400 + ((u % 86400) / 3600) * 3600 + ((u % 3600) / 60) * 60 + u % 60 == u
    ensures 0 <= (u % 86400) / 3600 < 24
  {
    var d, r1 := u / 86400, u % 86400;
    var h, r2 := r1 / 3600, r1 % 3600;
    assert r1 == h * 3600 + r2;
    assert u == (24 * d + h) * 3600 + r2;
    DivModIsUnique(u, 3600, 24 * d + h, r2);
    var m, r3 := r2 / 60, r2 % 60;
    assert u == (60 * (24 * d + h) + m) * 60 + r3;
    DivModIsUnique(u, 60, 60 * (24 * d + h) + m, r3);
  }

  /** Any split of the uptime into in-range parts is the one `Decompose` computes. */
  lemma DecomposeUnique(uptime: int, p: UptimeParts)
    requires Total(p) == uptime && InRange(p)
    ensures Decompose(uptime) == p
  {
    var below := p.hours * 3600 + p.minutes * 60 + p.seconds;
    DivModIsUnique(uptime, 86400, p.days, below);
    DivModIsUnique(below, 3600, p.hours, p.minutes * 60 + p.seconds);
    DivModIsUnique(uptime, 3600, p.days * 24 + p.hours, p.minutes * 60 + p.seconds);
    DivModIsUnique(p.minutes * 60 + p.seconds, 60, p.minutes, p.seconds);
    DivModIsUnique(uptime, 60, p.days * 1440 + p.hours * 60 + p.minutes, p.seconds);
  }

  /** `str(days)` can write the day count: it has at most `MaxStrDigits` digits. */
  predicate DaysWritable(uptime: int)
  {
    var d := Decompose(uptime).days;
    |NatToString(if d < 0 then -d else d)| <= MaxStrDigits
  }

  /** `f"{days} days, {hours:02d}:{minutes:02d}:{seconds:02d}"`. */
  function UptimeString(uptime: int): string
  {
    var p := Decompose(uptime);
    IntToString(p.days) + " days, " + ClockString(p.hours, p.minutes, p.seconds)
  }

  /** Reads an uptime string back into seconds. */
  function ParseUptimeString(t: string): Option<int>
  {
    if |t| >= 15 && t[|t| - 15..|t| - 8] == " days, " then
      match (ParseInt(t[..|t| - 15]), ParseClock(t[|t| - 8..]))
      case (Some(d), Some(c)) => Some(d * 86400 + c.hours * 3600 + c.minutes * 60 + c.seconds)
      case _ => None
    else None
  }

  /** Reading `<day text> days, <clock>` combines what the two pieces read as. */
  lemma ParseUptimePieces(dayText: string, clock: string, days: int, c: Hms)
    requires |clock| == 8 && ParseInt(dayText) == Some(days) && ParseClock(clock) == Some(c)
    ensures ParseUptimeString(dayText + " days, " + clock) == Some(Total(UptimeParts(days, c.hours, c.minutes, c.seconds)))
  {
    var t := dayText + " days, " + clock;
    assert t[|t| - 15..|t| - 8] == " days, " && t[..|t| - 15] == dayText && t[|t| - 8..] == clock;
  }

  /** The uptime string determines the uptime: reading it back gives the seconds again. */
  lemma UptimeStringRoundTrip(uptime: int)
    requires DaysWritable(uptime)
    ensures ParseUptimeString(UptimeString(uptime)) == Some(uptime)
  {
    var p := Decompose(uptime);
    var clock := ClockString(p.hours, p.minutes, p.seconds);
    ZeroPadTwo(p.hours);
    ZeroPadTwo(p.minutes);
    ZeroPadTwo(p.seconds);
    ParseIntOfIntToString(p.days);
    ClockRoundTrip(p.hours, p.minutes, p.seconds);
    assert |clock| == 8;
    ParseUptimePieces(IntToString(p.days), clock, p.days, Hms(p.hours, p.minutes, p.seconds));
    assert UptimeString(uptime) == IntToString(p.days) + " days, " + clock;
    assert UptimeParts(p.days, p.hours, p.minutes, p.seconds) == p;
  }

  lemma UptimeExample()
    ensures Decompose(90061) == UptimeParts(1, 1, 1, 1)
    ensures Decompose(86399) == UptimeParts(0, 23, 59, 59)
  {
    DecomposeUnique(90061, UptimeParts(1, 1, 1, 1));
    DecomposeUnique(86399, UptimeParts(0, 23, 59, 59));
  }
}

/**
 * The system-monitor state: whether the monitor dialog is open and the
 * last host statistics shown in it.
 */
module SystemStates {
  import opened Wrappers
  import opened Uptime

  /**
   * One reading of the host. The memory, swap and load amounts are the text
   * the program's own f-strings make of them (`:.1f` gigabytes, `:.2f`
   * load); the model takes that text as given rather than rounding reals.
   */
  datatype HostSample = HostSample(
    cpuPercents: seq<real>, cpuPercentTotal: real,
    memTotalGb: string, memUsedGb: string, memPercent: real,
    swapTotalGb: string, swapUsedGb: string, swapPercent: real,
    loadAvg1: string, loadAvg5: string, loadAvg15: string,
    pidCount: nat, now: real, bootTime: real)

  /** The dictionary of statistics that one collection produces. */
  datatype Stats = Stats(
    cpuPercents: seq<real>, cpuPercentTotal: real,
    memTotalGb: string, memUsedGb: string, memPercent: real,
    swapTotalGb: string, swapUsedGb: string, swapPercent: real,
    loadAvg1: string, loadAvg5: string, loadAvg15: string,
    taskCount: int, uptimeStr: string)

  /** The collection step: the reading copied across, and the uptime computed and rendered. */
  function CollectStats(h: HostSample): Stats
  {
    Stats(h.cpuPercents, h.cpuPercentTotal, h.memTotalGb, h.memUsedGb, h.memPercent,
          h.swapTotalGb, h.swapUsedGb, h.swapPercent, h.loadAvg1, h.loadAvg5, h.loadAvg15,
          h.pidCount, UptimeString(UptimeSeconds(h.now, h.bootTime)))
  }

  /** The uptime text of a collection reads back as the whole seconds since boot. */
  lemma CollectedUptimeReadsBack(h: HostSample)
    requires DaysWritable(UptimeSeconds(h.now, h.bootTime))
    ensures ParseUptimeString(CollectStats(h).uptimeStr) == Some(UptimeSeconds(h.now, h.bootTime))
    ensures CollectStats(h).taskCount == h.pidCount
  {
    UptimeStringRoundTrip(UptimeSeconds(h.now, h.bootTime));
  }

  /** How many passes of the refresh loop find the dialog open before the first that finds it closed. */
  function OpenRun(openAtTick: seq<bool>): (k: nat)
    ensures k <= |openAtTick|
    ensures forall j :: 0 <= j < k ==> openAtTick[j]
    ensures k < |openAtTick| ==> !openAtTick[k]
  {
    if openAtTick == [] || !openAtTick[0] then 0 else 1 + OpenRun(openAtTick[1..])
  }

  class SystemState {
    var showSystemModal: bool
    var cpuPercentTotal: real
    var cpuPercents: seq<real>
    var memTotalGb: string
    var memUsedGb: string
    var memPercent: real
    var swapTotalGb: string
    var swapUsedGb: string
    var swapPercent: real
    var loadAvg1: string
    var loadAvg5: string
    var loadAvg15: string
    var taskCount: int
    var uptimeStr: string

    constructor ()
      ensures !showSystemModal
      ensures CurrentStats() == Stats([], 0.0, "0.0", "0.0", 0.0, "0.0", "0.0", 0.0, "0.00", "0.00", "0.00", 0, "")
    {
      showSystemModal := false;
      cpuPercentTotal, cpuPercents := 0.0, [];
      memTotalGb, memUsedGb, memPercent := "0.0", "0.0", 0.0;
      swapTotalGb, swapUsedGb, swapPercent := "0.0", "0.0", 0.0;
      loadAvg1, loadAvg5, loadAvg15 := "0.00", "0.00", "0.00";
      taskCount, uptimeStr := 0, "";
    }

    /** The statistics currently shown. */
    function CurrentStats(): Stats
      reads this
    {
      Stats(cpuPercents, cpuPercentTotal, memTotalGb, memUsedGb, memPercent,
            swapTotalGb, swapUsedGb, swapPercent, loadAvg1, loadAvg5, loadAvg15, taskCount, uptimeStr)
    }

    /** Opens or closes the dialog; opening it asks for the refresh loop to start. */
    method ToggleSystemModal() returns (startRefresh: bool)
      modifies this`showSystemModal
      ensures showSystemModal == !old(showSystemModal)
      ensures startRefresh == showSystemModal
    {
      showSystemModal := !showSystemModal;
      startRefresh := showSystemModal;
    }

    method CloseSystemModal()
      modifies this`showSystemModal
      ensures !showSystemModal
    {
      showSystemModal := false;
    }

    /** Copies every statistic of the dictionary into its field. */
    method ApplyStats(stats: Stats)
      modifies this`cpuPercents, this`cpuPercentTotal, this`memTotalGb, this`memUsedGb, this`memPercent,
               this`swapTotalGb, this`swapUsedGb, this`swapPercent, this`loadAvg1, this`loadAvg5,
               this`loadAvg15, this`taskCount, this`uptimeStr
      ensures CurrentStats() == stats
    {
      cpuPercents := stats.cpuPercents;
      cpuPercentTotal := stats.cpuPercentTotal;
      memTotalGb := stats.memTotalGb;
      memUsedGb := stats.memUsedGb;
      memPercent := stats.memPercent;
      swapTotalGb := stats.swapTotalGb;
      swapUsedGb := stats.swapUsedGb;
      swapPercent := stats.swapPercent;
      loadAvg1 := stats.loadAvg1;
      loadAvg5 := stats.loadAvg5;
      loadAvg15 := stats.loadAvg15;
      taskCount := stats.taskCount;
      uptimeStr := stats.uptimeStr;
    }

    /**
     * The critical section of one pass of the refresh loop: with the dialog
     * closed the loop ends and nothing is shown; otherwise the freshly
     * collected statistics are shown and the loop goes on.
     */
    method RefreshTick(stats: Stats) returns (keepGoing: bool)
      modifies this`cpuPercents, this`cpuPercentTotal, this`memTotalGb, this`memUsedGb, this`memPercent,
               this`swapTotalGb, this`swapUsedGb, this`swapPercent, this`loadAvg1, this`loadAvg5,
               this`loadAvg15, this`taskCount, this`uptimeStr
      ensures keepGoing == showSystemModal
      ensures CurrentStats() == if keepGoing then stats else old(CurrentStats())
    {
      if !showSystemModal {
        return false;
      }
      ApplyStats(stats);
      return true;
    }

    /** The single-shot refresh: one reading collected and shown. */
    method RefreshOnce(h: HostSample)
      modifies this`cpuPercents, this`cpuPercentTotal, this`memTotalGb, this`memUsedGb, this`memPercent,
               this`swapTotalGb, this`swapUsedGb, this`swapPercent, this`loadAvg1, this`loadAvg5,
               this`loadAvg15, this`taskCount, this`uptimeStr
      ensures CurrentStats() == CollectStats(h)
    {
      var stats := CollectStats(h);
      ApplyStats(stats);
    }

    /**
     * The refresh loop over the host readings `samples` taken one after
     * another (the loop itself has no end; the samples bound what is
     * modelled). `openAtTick[i]` stands for the events handled while the
     * loop slept: it is whether the dialog is open when pass i reaches its
     * critical section, and the method sets `showSystemModal` from it.
     * Returns how many readings were collected and shown.
     */
    method AutoRefresh(samples: seq<HostSample>, openAtTick: seq<bool>) returns (applied: nat)
      requires |openAtTick| == |samples|
      modifies this`showSystemModal
      modifies this`cpuPercents, this`cpuPercentTotal, this`memTotalGb, this`memUsedGb, this`memPercent,
               this`swapTotalGb, this`swapUsedGb, this`swapPercent, this`loadAvg1, this`loadAvg5,
               this`loadAvg15, this`taskCount, this`uptimeStr
      ensures applied == OpenRun(openAtTick)
      ensures CurrentStats() == if applied > 0 then CollectStats(samples[applied - 1]) else old(CurrentStats())
      ensures applied > 0 && DaysWritable(UptimeSeconds(samples[applied - 1].now, samples[applied - 1].bootTime)) ==>
        ParseUptimeString(uptimeStr) == Some(UptimeSeconds(samples[applied - 1].now, samples[applied - 1].bootTime))
      ensures showSystemModal == if |samples| == 0 then old(showSystemModal) else applied == |samples|
    {
      var i := 0;
      while i < |samples|
        invariant 0 <= i <= OpenRun(openAtTick)
        invariant CurrentStats() == if i > 0 then CollectStats(samples[i - 1]) else old(CurrentStats())
        invariant showSystemModal == if i > 0 then openAtTick[i - 1] else old(showSystemModal)
      {
        showSystemModal := openAtTick[i];
        var keepGoing := RefreshTick(CollectStats(samples[i]));
        if !keepGoing {
          break;
        }
        i := i + 1;
      }
      if i > 0 && DaysWritable(UptimeSeconds(samples[i - 1].now, samples[i - 1].bootTime)) {
        CollectedUptimeReadsBack(samples[i - 1]);
      }
      return i;
    }
  }
}

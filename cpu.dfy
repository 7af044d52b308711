/**
 * The CPU-load metric of src/metrics/cpu.rs: the sampler that turns two
 * successive lines of /proc/stat into a load percentage, the choice between
 * the sleeping and the running cat, and the display text.
 *
 * The counters are `u64`. Their sum and the `* 100` are modelled with
 * wrap-around, as a release build computes them (a debug build panics there
 * instead); the percentage stays within 0..=100 either way.
 */
module Cpu {
  import opened Wrappers
  import opened Text
  import opened Animation
  import ReadLine
  import opened Arith


  const SLEEPING_CAT: char := ''
  const RUNNING_CAT: seq<char> := ['', '', '', '', '']
  const MAX_FREQUENCY: real := 5.0
  /** Capacity of the line buffer the sampler reads /proc/stat into. */
  const LINE_CAPACITY: nat := 256

  /** The two running sums the sampler keeps: all time, and idle time (idle + iowait). */
  datatype Times = Times(total: nat, idle: nat)

  /** `s.parse::<u64>().unwrap_or(0)`. */
  function Field(s: string): (v: nat)
    ensures v <= U64_MAX
    ensures ParseUnsigned(s, U64_MAX).None? ==> v == 0
    ensures ParseUnsigned(s, U64_MAX).Some? ==> v == ParseUnsigned(s, U64_MAX).value
  {
    match ParseUnsigned(s, U64_MAX)
    case Some(x) => x
    case None => 0
  }

  /**
   * The first line of /proc/stat: the name is skipped and the next five
   * fields are user, nice, system, idle and iowait. `None` is the panic of
   * `expect` when fewer than five fields follow the name.
   */
  function ParseStat(line: string): (r: Option<Times>)
    ensures r.None? <==> |SplitWhitespace(line)| < 6
    ensures r.Some? ==> r.value.total < U64 && r.value.idle < U64
  {
    StatOf(SplitWhitespace(line))
  }

  /** `ParseStat` on the whitespace-separated fields of the line. */
  function StatOf(fields: seq<string>): (r: Option<Times>)
    ensures r.None? <==> |fields| < 6
    ensures r.Some? ==> r.value.total < U64 && r.value.idle < U64
  {
    if |fields| < 6 then None
    else
      var user, nice, system, idle, iowait :=
        Field(fields[1]), Field(fields[2]), Field(fields[3]), Field(fields[4]), Field(fields[5]);
      Some(Times((user + nice + system + idle + iowait) % U64, (idle + iowait) % U64))
  }

  /**
   * The load over the interval between two samples, in percent: the share of
   * the elapsed time that was not idle. Counters that went backwards give a
   * zero delta (saturating subtraction), and a zero total delta gives 0.
   */
  function Percentage(old_: Times, t: Times): (p: nat)
    ensures SatSub(t.total, old_.total) == 0 ==> p == 0
  {
    var deltaTotal := SatSub(t.total, old_.total);
    var deltaIdle := SatSub(t.idle, old_.idle);
    var scaled := SatSub(deltaTotal, deltaIdle) * 100 % U64;
    if deltaTotal == 0 then 0 else scaled / deltaTotal
  }

  /** The percentage always fits `u8` and never exceeds 100, even when `* 100` wraps around. */
  lemma PercentageAtMost100(old_: Times, t: Times)
    requires t.total < U64
    ensures Percentage(old_, t) <= 100
  {
    var deltaTotal := SatSub(t.total, old_.total);
    var active := SatSub(deltaTotal, SatSub(t.idle, old_.idle));
    var scaled := active * 100 % U64;
    if deltaTotal > 0 {
      if active * 100 < U64 {
        assert scaled == active * 100;
        assert scaled <= 100 * deltaTotal;
      } else {
        assert scaled < U64 <= active * 100 <= deltaTotal * 100;
      }
      DivAtMost(scaled, 100, deltaTotal);
    }
  }

  /**
   * Without wrap-around the percentage is the non-idle share of the
   * interval rounded down: `p * total <= 100 * active < (p + 1) * total`.
   */
  lemma PercentageIsShare(old_: Times, t: Times)
    requires SatSub(t.total, old_.total) > 0
    requires SatSub(SatSub(t.total, old_.total), SatSub(t.idle, old_.idle)) * 100 < U64
    ensures var deltaTotal := SatSub(t.total, old_.total);
      var active := SatSub(deltaTotal, SatSub(t.idle, old_.idle));
      && Percentage(old_, t) * deltaTotal <= active * 100
      && active * 100 < (Percentage(old_, t) + 1) * deltaTotal
  {
  }

  /** Counters that did not move, or went backwards, read as an idle interval. */
  lemma PercentageWhenStalled(old_: Times, t: Times)
    requires t.total <= old_.total
    ensures Percentage(old_, t) == 0
  {
  }

  /** The counters in decimal, one token each. */
  function Decimals(counters: seq<nat>): (r: seq<string>)
    ensures |r| == |counters|
    ensures forall k :: 0 <= k < |r| ==> r[k] == Decimal(counters[k])
  {
    seq(|counters|, k requires 0 <= k < |counters| => Decimal(counters[k]))
  }

  /** Each counter's decimal reads back as the counter. */
  lemma DecimalFields(counters: seq<nat>)
    requires forall k :: 0 <= k < |counters| ==> counters[k] <= U64_MAX
    ensures forall k :: 0 <= k < |counters| ==> Field(Decimals(counters)[k]) == counters[k]
  {
    forall k | 0 <= k < |counters| ensures Field(Decimals(counters)[k]) == counters[k] {
      ParseDecimal(counters[k], U64_MAX);
    }
  }

  /**
   * Parsing what the read of /proc/stat returns gives the wrapped sums of the
   * first five counters after the name, whatever whitespace separates the
   * fields (the kernel puts two spaces after "cpu") and whatever follows them
   * (the further counters and the further lines of the chunk).
   */
  lemma ParseStatLine(line: string, gaps: seq<string>, name: string, counters: seq<nat>, more: seq<string>)
    requires |counters| >= 5 && forall k :: 0 <= k < |counters| ==> counters[k] <= U64_MAX
    requires Separates(gaps, [name] + Decimals(counters) + more, line)
    ensures ParseStat(line) ==
      Some(Times((counters[0] + counters[1] + counters[2] + counters[3] + counters[4]) % U64,
                 (counters[3] + counters[4]) % U64))
  {
    var fields := [name] + Decimals(counters) + more;
    SplitSeparated(gaps, fields, line);
    DecimalFields(counters);
    assert forall k :: 0 <= k < 5 ==> fields[k + 1] == Decimals(counters)[k];
    StatOfFields(fields, counters);
  }

  /** `ParseStat` sums the five fields after the name. */
  lemma StatOfFields(fields: seq<string>, counters: seq<nat>)
    requires |fields| >= 6 && |counters| >= 5
    requires forall k :: 0 <= k < 5 ==> Field(fields[k + 1]) == counters[k]
    ensures StatOf(fields) ==
      Some(Times((counters[0] + counters[1] + counters[2] + counters[3] + counters[4]) % U64,
                 (counters[3] + counters[4]) % U64))
  {
    assert Field(fields[1]) == counters[0] && Field(fields[2]) == counters[1] && Field(fields[3]) == counters[2];
    assert Field(fields[4]) == counters[3] && Field(fields[5]) == counters[4];
  }

  /** Why the sampler thread ends. */
  datatype Stop = ReadFailed | Panicked | Stopped

  /** What one pass of the sampling loop does: a new sample, or the end of the thread. */
  datatype Sample = Sampled(t: Times) | Ended(stop: Stop)

  /** One pass: read the first line of /proc/stat (here `file`) and parse it. */
  function SampleOf(file: ReadLine.File): Sample
  {
    match ReadLine.ReadLineOf(LINE_CAPACITY, file)
    case Err(_) => Ended(ReadFailed)
    case Ok(line) =>
      match ParseStat(line)
      case None => Ended(Panicked)
      case Some(t) => Sampled(t)
  }

  /**
   * The values the sampler stores, in order, starting from the previous
   * sample `prev`, when its successive reads of /proc/stat open and deliver
   * `files`; a failed read ends the thread with an error, too short a line
   * with a panic, and the end of `files` stands for the stop flag being set.
   */
  function Samples(prev: Times, files: seq<ReadLine.File>): (r: (seq<nat>, Stop))
    decreases |files|
  {
    if |files| == 0 then ([], Stopped)
    else match SampleOf(files[0])
      case Ended(stop) => ([], stop)
      case Sampled(t) =>
        var rest := Samples(t, files[1..]);
        ([Percentage(prev, t)] + rest.0, rest.1)
  }

  /** Every stored value is a percentage, from the first sample on. */
  lemma {:induction false} SamplesAtMost100(prev: Times, files: seq<ReadLine.File>)
    ensures forall k :: 0 <= k < |Samples(prev, files).0| ==> Samples(prev, files).0[k] <= 100
    decreases |files|
  {
    if |files| > 0 && SampleOf(files[0]).Sampled? {
      var t := SampleOf(files[0]).t;
      assert t.total < U64;
      PercentageAtMost100(prev, t);
      SamplesAtMost100(t, files[1..]);
    }
  }

  /** The first interval is measured from the initial totals 1 and 1, the next ones from the previous sample. */
  const INITIAL: Times := Times(1, 1)

  /** The body of the sampling loop up to the store: read, then parse. */
  method ReadSample(file: ReadLine.File) returns (sample: Sample)
    ensures sample == SampleOf(file)
  {
    var timings := ReadLine.ReadLineFromPath(LINE_CAPACITY, file);
    if timings.Err? {
      return Ended(ReadFailed);
    }
    var parsed := ParseStat(timings.value);
    if parsed.None? {
      return Ended(Panicked);
    }
    sample := Sampled(parsed.value);
  }

  /** `updater`: the sampling loop of the background thread; `stored` are the values it stores, in order. */
  method Updater(files: seq<ReadLine.File>) returns (stored: seq<nat>, stop: Stop)
    ensures (stored, stop) == Samples(INITIAL, files)
  {
    var totalOld := 1;
    var idleOld := 1;
    stored := [];
    var i := 0;
    ghost var goal := Samples(INITIAL, files);
    assert files[i..] == files && Times(totalOld, idleOld) == INITIAL;
    assert stored + goal.0 == goal.0;
    while i < |files|
      invariant i <= |files|
      invariant stored + Samples(Times(totalOld, idleOld), files[i..]).0 == goal.0
      invariant Samples(Times(totalOld, idleOld), files[i..]).1 == goal.1
    {
      ghost var rest := files[i..];
      assert rest[0] == files[i] && rest[1..] == files[i + 1..];
      var sample := ReadSample(files[i]);
      if sample.Ended? {
        assert stored == goal.0;
        return stored, sample.stop;
      }
      var t := sample.t;
      var percentage := Percentage(Times(totalOld, idleOld), t);
      stored := stored + [percentage];
      totalOld := t.total;
      idleOld := t.idle;
      i := i + 1;
    }
    assert files[i..] == [];
    assert stored == goal.0;
    stop := Stopped;
  }

  /** `format!("{emoji} {cpu_usage: >2}% cpu")`. */
  function CpuText(emoji: char, usage: nat): (text: string)
    ensures |text| == 7 + |PadLeft(Decimal(usage), 2)|
  {
    [emoji] + " " + PadLeft(Decimal(usage), 2) + "% cpu"
  }

  /** The usage field of the display reads back, once trimmed, as the usage. */
  lemma CpuTextUsage(emoji: char, usage: nat)
    requires usage <= 100
    ensures var text := CpuText(emoji, usage);
      && text[0] == emoji && text[|text| - 5..] == "% cpu"
      && ParseUnsigned(Trim(text[2..|text| - 5]), 255) == Some(usage)
  {
    var text := CpuText(emoji, usage);
    assert text[2..|text| - 5] == PadLeft(Decimal(usage), 2);
    TrimPadLeft(usage, 2);
    ParseDecimal(usage, 255);
  }

  /**
   * The metric object: the usage the sampler stored last (the atomic) and
   * the two animators, the running cat of five frames and the sleeping cat
   * of one, both at most five cycles per second.
   */
  class CpuMetric {
    var usage: nat
    const running: AnimatedEmoji
    const sleeping: AnimatedEmoji

    ghost predicate Valid()
      reads this, running, sleeping
    {
      && running != sleeping
      && running.Valid() && running.frames == RUNNING_CAT
      && sleeping.Valid() && sleeping.frames == [SLEEPING_CAT]
      && running.maxCyclesPerSecond == MAX_FREQUENCY && sleeping.maxCyclesPerSecond == MAX_FREQUENCY
      && usage <= 100
    }

    /** `CpuMetric::new` without the spawned thread: usage 0, both animators at frame 0. */
    constructor ()
      ensures Valid() && usage == 0 && fresh(running) && fresh(sleeping)
      ensures running.Pos() == Position(0, 0) && sleeping.Pos() == Position(0, 0)
      ensures running.maxCyclesPerSecond == MAX_FREQUENCY && sleeping.maxCyclesPerSecond == MAX_FREQUENCY
    {
      usage := 0;
      running := new AnimatedEmoji(MAX_FREQUENCY, 0, RUNNING_CAT);
      sleeping := new AnimatedEmoji(MAX_FREQUENCY, 0, [SLEEPING_CAT]);
    }

    /** The sampler's store into the shared cell. */
    method Store(percentage: nat)
      requires Valid() && percentage <= 100
      modifies this
      ensures Valid() && usage == percentage
    {
      usage := percentage;
    }

    /**
     * `get_emoji`: below 10% the running cat is reset and the sleeping cat
     * is queried, otherwise the sleeping cat is reset and the running cat is
     * queried, with the usage as a fraction for speed. `period` is the
     * per-frame period of the animator queried.
     */
    method GetEmoji(now: nat, period: nat) returns (glyph: char)
      requires Valid()
      modifies running, sleeping
      ensures Valid() && usage == old(usage)
      ensures usage < 10 ==>
        && running.Pos() == Position(0, 0)
        && sleeping.Pos() == Step(old(sleeping.Pos()), 1, Query(now, period))
        && glyph == SLEEPING_CAT
      ensures usage >= 10 ==>
        && sleeping.Pos() == Position(0, 0)
        && running.Pos() == Step(old(running.Pos()), 5, Query(now, period))
        && glyph == RUNNING_CAT[running.frame]
    {
      var speed := usage as real / 100.0;
      if speed < 0.1 {
        running.Reset();
        glyph := sleeping.GetFrame(speed, now, period);
      } else {
        sleeping.Reset();
        glyph := running.GetFrame(speed, now, period);
      }
    }

    /** `get_value`: the chosen cat, then the usage right-aligned in two columns. */
    method GetValue(now: nat, period: nat) returns (text: string)
      requires Valid()
      modifies running, sleeping
      ensures Valid() && usage == old(usage)
      ensures usage < 10 ==>
        && running.Pos() == Position(0, 0)
        && sleeping.Pos() == Step(old(sleeping.Pos()), 1, Query(now, period))
        && text == CpuText(SLEEPING_CAT, usage)
      ensures usage >= 10 ==>
        && sleeping.Pos() == Position(0, 0)
        && running.Pos() == Step(old(running.Pos()), 5, Query(now, period))
        && text == CpuText(RUNNING_CAT[running.frame], usage)
    {
      var emoji := GetEmoji(now, period);
      text := CpuText(emoji, usage);
    }
  }
}

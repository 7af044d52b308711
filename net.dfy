/**
 * The network-throughput metric of src/metrics/net.rs: the byte counters of
 * the interfaces that are up, summed; the per-second rates derived from two
 * successive sums; and the display with binary prefixes (`numfmt`).
 *
 * Time is in milliseconds. The sums are `u64` additions, modelled with
 * wrap-around as a release build computes them.
 */
module Net {
  import opened Wrappers
  import opened Arith
  import opened Utf8
  import opened Text

  const POWERS: seq<string> := ["B", "KiB", "MiB", "GiB", "TiB", "PiB"]

  function Pow1024(p: nat): (r: nat)
    ensures r > 0
  {
    if p == 0 then 1 else 1024 * Pow1024(p - 1)
  }

  /** The exit test of the `numfmt` loop, after `p` divisions. */
  predicate Stops(number: nat, p: nat)
  {
    number / Pow1024(p) <= 1024 || p >= |POWERS| - 1
  }

  function LevelFrom(number: nat, p: nat): (r: nat)
    requires p < |POWERS|
    ensures p <= r < |POWERS| && Stops(number, r)
    ensures forall q :: p <= q < r ==> !Stops(number, q)
    decreases |POWERS| - p
  {
    if Stops(number, p) then p else LevelFrom(number, p + 1)
  }

  /**
   * How many times `numfmt` divides by 1024: the fewest divisions after which
   * at most 1024 is left, but never more than five, so it always indexes
   * `POWERS`.
   */
  function Level(number: nat): (p: nat)
    ensures p < |POWERS| && Stops(number, p)
    ensures forall q :: 0 <= q < p ==> !Stops(number, q)
  {
    LevelFrom(number, 0)
  }

  /** The integer part printed: `number` in units of the chosen power, rounded down. */
  function Scaled(number: nat): nat
  {
    number / Pow1024(Level(number))
  }

  /**
   * The fraction digit(s) printed: the last remainder modulo 1024 of the
   * divisions, in hundredths of the unit, rounded down (0 without division).
   */
  function Remainder(number: nat): (rem: nat)
    ensures rem <= 99
  {
    var p := Level(number);
    if p == 0 then 0
    else
      var rest := number / Pow1024(p - 1) % 1024;
      DivBelow(rest * 100, 100, 1024);
      rest * 100 / 1024
  }

  /** Pieces rendered as `numfmt` renders them: `{number}.{rem}{power}` or `{number}{power}`. */
  function Render(n: nat, rem: nat, p: nat): string
    requires p < |POWERS|
  {
    if rem > 0 && n < 1000 then Decimal(n) + "." + Decimal(rem) + POWERS[p]
    else Decimal(n) + POWERS[p]
  }

  /** `numfmt` as written: digits first, the unit of the chosen power last. */
  function Numfmt(number: nat): (s: string)
    ensures var unit := POWERS[Level(number)];
      |s| > |unit| && s[|s| - |unit|..] == unit && IsDigit(s[0])
  {
    Render(Scaled(number), Remainder(number), Level(number))
  }

  /** The levels below `p` all continue and `p` stops: then `p` is the level. */
  lemma LevelIs(number: nat, p: nat)
    requires p < |POWERS| && Stops(number, p)
    requires forall q :: 0 <= q < p ==> !Stops(number, q)
    ensures Level(number) == p
  {
  }

  /** The `while` loop of `numfmt`: divide by 1024, keeping the scaled remainder, until it stops. */
  method Scale(number: nat) returns (n: nat, rem: nat, pow: nat)
    ensures pow == Level(number) && n == Scaled(number) && rem == Remainder(number)
  {
    pow := 0;
    rem := 0;
    n := number;
    while n > 1024 && pow < |POWERS| - 1
      invariant pow < |POWERS|
      invariant n == number / Pow1024(pow)
      invariant rem == if pow == 0 then 0 else number / Pow1024(pow - 1) % 1024 * 100 / 1024
      invariant forall q :: 0 <= q < pow ==> !Stops(number, q)
    {
      rem := n % 1024 * 100 / 1024;
      DivDiv(number, Pow1024(pow), 1024);
      n := n / 1024;
      pow := pow + 1;
    }
    LevelIs(number, pow);
  }

  /** `numfmt`: the loop, then the formatting. */
  method NumfmtMethod(number: nat) returns (s: string)
    ensures s == Numfmt(number)
  {
    var n, rem, pow := Scale(number);
    s := Render(n, rem, pow);
  }

  /** Below five divisions the integer part is at most 1024, and with at least one division it is at least 1. */
  lemma {:induction false} ScaledBounds(number: nat)
    ensures Scaled(number) * Pow1024(Level(number)) <= number < (Scaled(number) + 1) * Pow1024(Level(number))
    ensures Level(number) < |POWERS| - 1 ==> Scaled(number) <= 1024
    ensures Level(number) > 0 ==> Scaled(number) >= 1
  {
    var p := Level(number);
    DivBounds(number, Pow1024(p));
    if p > 0 {
      var m := number / Pow1024(p - 1);
      assert !Stops(number, p - 1);
      assert m > 1024;
      DivDiv(number, Pow1024(p - 1), 1024);
      assert Pow1024(p - 1) * 1024 == Pow1024(p);
      assert Scaled(number) == m / 1024;
    }
  }


  /** An input of at most 1024 is printed as it is, in bytes. */
  lemma NumfmtSmall(number: nat)
    requires number <= 1024
    ensures Numfmt(number) == Decimal(number) + "B"
  {
    LevelIs(number, 0);
  }

  lemma DecimalHasNoDot(n: nat)
    ensures '.' !in Decimal(n)
  {
    var d := Decimal(n);
    assert forall i :: 0 <= i < |d| ==> IsDigit(d[i]);
  }

  /** A fractional part appears exactly when the remainder is nonzero and the integer part is below 1000. */
  lemma NumfmtFraction(number: nat)
    ensures '.' in Numfmt(number) <==> Remainder(number) > 0 && Scaled(number) < 1000
  {
    var n, rem, p := Scaled(number), Remainder(number), Level(number);
    DecimalHasNoDot(n);
    DecimalHasNoDot(rem);
    assert '.' !in POWERS[p];
    if rem > 0 && n < 1000 {
      assert Numfmt(number)[|Decimal(n)|] == '.';
    } else {
      assert Numfmt(number) == Decimal(n) + POWERS[p];
    }
  }

  /**
   * With at least one division, integer part and remainder together are the
   * value in hundredths of the unit, rounded down: with `m` the value before
   * the last division, `100 * n + rem == 100 * m / 1024`.
   */
  lemma Hundredths(number: nat)
    requires Level(number) > 0
    ensures 100 * Scaled(number) + Remainder(number) == 100 * (number / Pow1024(Level(number) - 1)) / 1024
  {
    var p := Level(number);
    var m := number / Pow1024(p - 1);
    var q, r := m / 1024, m % 1024;
    DivDiv(number, Pow1024(p - 1), 1024);
    assert Pow1024(p - 1) * 1024 == Pow1024(p);
    assert Scaled(number) == q;
    assert 100 * m == (100 * q + r * 100 / 1024) * 1024 + r * 100 % 1024;
    DivModUnique(100 * m, 100 * q + r * 100 / 1024, r * 100 % 1024, 1024);
  }

  /** Two decimal digits, with a leading zero below 10 (`{rem:02}`). */
  function TwoDigits(rem: nat): (s: string)
    requires rem <= 99
    ensures |s| == 2 && AllDigits(s) && DigitsValue(s) == rem
  {
    DecimalValue(rem);
    if rem < 10 then
      assert DigitsValue("0" + Decimal(rem)) == rem by {
        assert ("0" + Decimal(rem))[..1] == "0";
      }
      "0" + Decimal(rem)
    else
      Decimal(rem)
  }

  /** `numfmt` with its fraction padded to two digits, as the remainder in hundredths means it. */
  function NumfmtPadded(number: nat): string
  {
    var n, rem, p := Scaled(number), Remainder(number), Level(number);
    if rem > 0 && n < 1000 then Decimal(n) + "." + TwoDigits(rem) + POWERS[p]
    else Decimal(n) + POWERS[p]
  }

  lemma DigitsAppendTwo(a: string, b: string)
    requires AllDigits(a) && AllDigits(b) && |b| == 2
    ensures AllDigits(a + b) && DigitsValue(a + b) == DigitsValue(a) * 100 + DigitsValue(b)
  {
    var ab := a + b;
    var a1 := a + b[..1];
    assert AllDigits(ab) && AllDigits(a1) && AllDigits(b[..1]);
    assert ab[..|ab| - 1] == a1 && a1[..|a1| - 1] == a;
    assert DigitsValue(ab) == DigitsValue(a1) * 10 + (b[1] as int - '0' as int);
    assert DigitsValue(a1) == DigitsValue(a) * 10 + (b[0] as int - '0' as int);
    assert b[..1][..0] == [] && b[..|b| - 1] == b[..1];
    assert DigitsValue(b[..1]) == b[0] as int - '0' as int;
  }

  /**
   * The padded form prints the value in hundredths: its digits with the
   * point removed read as `100 * m / 1024`, `m` the value before the last
   * division.
   */
  lemma NumfmtPaddedValue(number: nat)
    requires Remainder(number) > 0 && Scaled(number) < 1000
    ensures var n, f := Decimal(Scaled(number)), TwoDigits(Remainder(number));
      && NumfmtPadded(number) == n + "." + f + POWERS[Level(number)]
      && DigitsValue(n + f) == 100 * (number / Pow1024(Level(number) - 1)) / 1024
  {
    var n, f := Decimal(Scaled(number)), TwoDigits(Remainder(number));
    DigitsAppendTwo(n, f);
    DecimalValue(Scaled(number));
    Hundredths(number);
  }

  /**
   * As written the remainder is printed without its leading zero: 1076 bytes
   * are 1.05 KiB, printed "1.5KiB", while the padded form prints "1.05KiB".
   */
  lemma NumfmtDropsLeadingZero()
    ensures Numfmt(1076) == "1.5KiB"
    ensures NumfmtPadded(1076) == "1.05KiB"
    ensures 100 * 1076 / 1024 == 105
  {
    assert !Stops(1076, 0) && Stops(1076, 1);
    LevelIs(1076, 1);
    assert Scaled(1076) == 1 && Remainder(1076) == 5;
    assert Decimal(1) == "1" && Decimal(5) == "5";
  }

  /** What `read_line` delivered from one counter file: a line, or `None` when it failed. */
  type Line = Option<string>

  /** `parse_xfile`: the line trimmed and parsed as `u64`. */
  function ParseXfile(line: Line): (r: Option<nat>)
    ensures r.Some? ==> r.value <= U64_MAX
  {
    match line
    case None => None
    case Some(l) => ParseUnsigned(Trim(l), U64_MAX)
  }

  /** A counter file as sysfs writes it, a decimal number and a newline, parses back to the number. */
  lemma ParseXfileCounter(n: nat)
    requires n <= U64_MAX
    ensures ParseXfile(Some(Decimal(n) + "\n")) == Some(n)
  {
    var d := Decimal(n);
    assert IsDigit(d[0]) && IsDigit(d[|d| - 1]);
    assert (d + "\n")[..|d|] == d;
    assert TrimEnd(d + "\n") == d;
    assert Trim(d + "\n") == d;
    ParseDecimal(n, U64_MAX);
  }

  /** One interface that is up: the lines read from its `rx_bytes` and `tx_bytes`. */
  datatype Interface = Interface(rx: Line, tx: Line)

  /** The counters of one interface, when both of its files parse. */
  function Reading(iface: Interface): (r: Option<(nat, nat)>)
    ensures r.Some? <==> ParseXfile(iface.rx).Some? && ParseXfile(iface.tx).Some?
    ensures r.Some? ==> r.value == (ParseXfile(iface.rx).value, ParseXfile(iface.tx).value)
    ensures r.Some? ==> r.value.0 <= U64_MAX && r.value.1 <= U64_MAX
  {
    var rx, tx := ParseXfile(iface.rx), ParseXfile(iface.tx);
    if rx.Some? && tx.Some? then Some((rx.value, tx.value)) else None
  }

  /** The closure of the `filter_map`, applied to every interface in order. */
  function Parsed(ifaces: seq<Interface>): (ps: seq<Option<(nat, nat)>>)
    ensures |ps| == |ifaces| && forall k :: 0 <= k < |ifaces| ==> ps[k] == Reading(ifaces[k])
  {
    seq(|ifaces|, k requires 0 <= k < |ifaces| => Reading(ifaces[k]))
  }

  /** The filtering half of `filter_map`: the values that are present, in order. */
  function Present(ps: seq<Option<(nat, nat)>>): (r: seq<(nat, nat)>)
    ensures |r| <= |ps|
  {
    if |ps| == 0 then []
    else if ps[0].Some? then [ps[0].value] + Present(ps[1..])
    else Present(ps[1..])
  }

  /** The `filter_map`: the counters of the interfaces both of whose files parse, in order. */
  function Readings(ifaces: seq<Interface>): seq<(nat, nat)>
  {
    Present(Parsed(ifaces))
  }

  /** The `fold` with `+` on `u64`, wrapping around. */
  function Fold(acc: (nat, nat), rs: seq<(nat, nat)>): (nat, nat)
    decreases |rs|
  {
    if |rs| == 0 then acc
    else Fold(((acc.0 + rs[0].0) % U64, (acc.1 + rs[0].1) % U64), rs[1..])
  }

  function SumRx(rs: seq<(nat, nat)>): nat
  {
    if |rs| == 0 then 0 else rs[0].0 + SumRx(rs[1..])
  }

  function SumTx(rs: seq<(nat, nat)>): nat
  {
    if |rs| == 0 then 0 else rs[0].1 + SumTx(rs[1..])
  }

  /** The totals of the interfaces: `(rx, tx)`. */
  function Totals(ifaces: seq<Interface>): (nat, nat)
  {
    Fold((0, 0), Readings(ifaces))
  }

  /** One step of the `fold`: the counters of a readable interface added to the totals, wrapping around. */
  function Add(acc: (nat, nat), reading: Option<(nat, nat)>): (nat, nat)
  {
    if reading.Some? then ((acc.0 + reading.value.0) % U64, (acc.1 + reading.value.1) % U64) else acc
  }

  /** `filter_map` and `fold` fused, as the lazy iterator runs them: one interface at a time. */
  function Accumulate(acc: (nat, nat), ps: seq<Option<(nat, nat)>>): (nat, nat)
    decreases |ps|
  {
    if |ps| == 0 then acc else Accumulate(Add(acc, ps[0]), ps[1..])
  }

  /** Running the two stages together gives what filtering first and folding afterwards gives. */
  lemma {:induction false} AccumulateIsFold(acc: (nat, nat), ps: seq<Option<(nat, nat)>>)
    ensures Accumulate(acc, ps) == Fold(acc, Present(ps))
    decreases |ps|
  {
    if |ps| > 0 {
      var rest := Present(ps[1..]);
      AccumulateIsFold(Add(acc, ps[0]), ps[1..]);
      if ps[0].Some? {
        assert Present(ps) == [ps[0].value] + rest;
        assert ([ps[0].value] + rest)[0] == ps[0].value && ([ps[0].value] + rest)[1..] == rest;
      }
    }
  }

  lemma AccumulateStep(acc: (nat, nat), ps: seq<Option<(nat, nat)>>, i: nat)
    requires i < |ps|
    ensures Accumulate(acc, ps[i..]) == Accumulate(Add(acc, ps[i]), ps[i + 1..])
  {
    assert ps[i..][0] == ps[i] && ps[i..][1..] == ps[i + 1..];
  }

  /** The `filter_map` and `fold` as a loop over the interfaces. */
  method SumInterfaces(ifaces: seq<Interface>) returns (rx: nat, tx: nat)
    ensures (rx, tx) == Totals(ifaces)
  {
    ghost var ps := Parsed(ifaces);
    rx, tx := 0, 0;
    var i := 0;
    assert ps[0..] == ps;
    while i < |ifaces|
      invariant i <= |ifaces|
      invariant Accumulate((rx, tx), ps[i..]) == Accumulate((0, 0), ps)
    {
      var reading := Reading(ifaces[i]);
      AccumulateStep((rx, tx), ps, i);
      var next := Add((rx, tx), reading);
      rx, tx := next.0, next.1;
      i := i + 1;
    }
    AccumulateIsFold((0, 0), ps);
  }

  /** The fold computes the plain sums reduced modulo 2^64. */
  lemma {:induction false} FoldIsSum(acc: (nat, nat), rs: seq<(nat, nat)>)
    requires acc.0 < U64 && acc.1 < U64
    ensures Fold(acc, rs) == ((acc.0 + SumRx(rs)) % U64, (acc.1 + SumTx(rs)) % U64)
    decreases |rs|
  {
    if |rs| > 0 {
      var next := ((acc.0 + rs[0].0) % U64, (acc.1 + rs[0].1) % U64);
      FoldIsSum(next, rs[1..]);
      ModAddLeft(acc.0 + rs[0].0, SumRx(rs[1..]), U64);
      ModAddLeft(acc.1 + rs[0].1, SumTx(rs[1..]), U64);
    }
  }

  /** The totals are the sums over the readable interfaces, modulo 2^64. */
  lemma TotalsAreSums(ifaces: seq<Interface>)
    ensures Totals(ifaces) == (SumRx(Readings(ifaces)) % U64, SumTx(Readings(ifaces)) % U64)
  {
    var rs := Readings(ifaces);
    var zero := (0, 0);
    FoldIsSum(zero, rs);
    assert zero.0 + SumRx(rs) == SumRx(rs) && zero.1 + SumTx(rs) == SumTx(rs);
  }

  /** Sums that fit `u64` are the totals exactly. */
  lemma TotalsWithoutWrap(ifaces: seq<Interface>)
    requires SumRx(Readings(ifaces)) < U64 && SumTx(Readings(ifaces)) < U64
    ensures Totals(ifaces) == (SumRx(Readings(ifaces)), SumTx(Readings(ifaces)))
  {
    var rx, tx := SumRx(Readings(ifaces)), SumTx(Readings(ifaces));
    TotalsAreSums(ifaces);
    DivModUnique(rx, 0, rx, U64);
    DivModUnique(tx, 0, tx, U64);
  }

  /** The rates and counters the metric keeps, and the time of its last update. */
  datatype NetState = NetState(upload: nat, download: nat, rxBytes: nat, txBytes: nat, previousUpdate: nat)

  /**
   * The guard on new rates: whole seconds have passed, both totals grew, and
   * a previous sample exists (zero stands for none).
   */
  predicate RatesChange(s: NetState, secs: nat, rx: nat, tx: nat)
  {
    secs > 0 && rx > s.rxBytes && tx > s.txBytes && s.txBytes != 0 && s.rxBytes != 0
  }

  /** Bytes per second over `secs` whole seconds, rounded down. */
  function PerSecond(delta: nat, secs: nat): (r: nat)
    requires secs > 0
    ensures r * secs <= delta < (r + 1) * secs
  {
    DivModUnique(delta, delta / secs, delta % secs, secs);
    delta / secs
  }

  /**
   * `update` with clock readings `now` (for `elapsed`) and `later` (the
   * `Instant::now()` after the counter files were read), and `rx` and `tx`
   * the totals over the interfaces, read only when the timeout has elapsed.
   */
  function NetUpdate(s: NetState, timeout: nat, now: nat, later: nat, rx: nat, tx: nat): (r: NetState)
    ensures (r.upload, r.download) != (s.upload, s.download) ==>
      SatSub(now, s.previousUpdate) >= timeout && RatesChange(s, SatSub(now, s.previousUpdate) / 1000, rx, tx)
    ensures r == s || r.previousUpdate == later
  {
    var elapsed := SatSub(now, s.previousUpdate);
    if elapsed < timeout then s
    else
      var secs := elapsed / 1000;
      if RatesChange(s, secs, rx, tx) then
        NetState(PerSecond(tx - s.txBytes, secs), PerSecond(rx - s.rxBytes, secs), rx, tx, later)
      else
        NetState(s.upload, s.download, rx, tx, later)
  }

  /** Before the timeout has elapsed an update changes nothing. */
  lemma UpdateSkips(s: NetState, timeout: nat, now: nat, later: nat, rx: nat, tx: nat)
    requires SatSub(now, s.previousUpdate) < timeout
    ensures NetUpdate(s, timeout, now, later, rx, tx) == s
  {
  }

  /** Otherwise the counters become the new totals and the timestamp the later clock reading. */
  lemma UpdateReplacesCounters(s: NetState, timeout: nat, now: nat, later: nat, rx: nat, tx: nat)
    requires SatSub(now, s.previousUpdate) >= timeout
    ensures var r := NetUpdate(s, timeout, now, later, rx, tx);
      r.rxBytes == rx && r.txBytes == tx && r.previousUpdate == later
  {
  }

  /** When the guard fails the rates stay as they were. */
  lemma UpdateKeepsRates(s: NetState, timeout: nat, now: nat, later: nat, rx: nat, tx: nat)
    requires !RatesChange(s, SatSub(now, s.previousUpdate) / 1000, rx, tx)
    ensures var r := NetUpdate(s, timeout, now, later, rx, tx);
      r.upload == s.upload && r.download == s.download
  {
  }

  /** When it holds, each rate is the growth of its counter per whole second, rounded down. */
  lemma UpdateRates(s: NetState, timeout: nat, now: nat, later: nat, rx: nat, tx: nat)
    requires SatSub(now, s.previousUpdate) >= timeout
    requires RatesChange(s, SatSub(now, s.previousUpdate) / 1000, rx, tx)
    ensures var r, secs := NetUpdate(s, timeout, now, later, rx, tx), SatSub(now, s.previousUpdate) / 1000;
      && r.download * secs <= rx - s.rxBytes < (r.download + 1) * secs
      && r.upload * secs <= tx - s.txBytes < (r.upload + 1) * secs
  {
  }

  /** One interface whose files hold the decimal counters `rx` and `tx` on a line each totals exactly those. */
  lemma TotalsOfOne(rx: nat, tx: nat)
    requires rx <= U64_MAX && tx <= U64_MAX
    ensures Totals([Interface(Some(Decimal(rx) + "\n"), Some(Decimal(tx) + "\n"))]) == (rx, tx)
  {
    var ifaces := [Interface(Some(Decimal(rx) + "\n"), Some(Decimal(tx) + "\n"))];
    ParseXfileCounter(rx);
    ParseXfileCounter(tx);
    assert Reading(ifaces[0]) == Some((rx, tx));
    FoldOne(Parsed(ifaces), rx, tx);
  }

  lemma FoldOne(ps: seq<Option<(nat, nat)>>, rx: nat, tx: nat)
    requires rx <= U64_MAX && tx <= U64_MAX && ps == [Some((rx, tx))]
    ensures Fold((0, 0), Present(ps)) == (rx, tx)
  {
    assert ps[1..] == [];
    assert Present(ps) == [(rx, tx)];
    var rs := [(rx, tx)];
    assert rs[1..] == [];
    assert Fold((0, 0), rs) == Fold((rx % U64, tx % U64), []);
    DivModUnique(rx, 0, rx, U64);
    DivModUnique(tx, 0, tx, U64);
  }

  /**
   * Counter files reading 3000 bytes each, 2000 ms after a sample of 1000
   * bytes each way: 1000 bytes per second each way.
   */
  lemma UpdateExample(previousUpdate: nat)
    ensures var line := Some(Decimal(3000) + "\n");
      var totals := Totals([Interface(line, line)]);
      && totals == (3000, 3000)
      && NetUpdate(NetState(0, 0, 1000, 1000, previousUpdate), 1000, previousUpdate + 2000, previousUpdate + 2000, 3000, 3000)
        == NetState(1000, 1000, 3000, 3000, previousUpdate + 2000)
  {
    TotalsOfOne(3000, 3000);
    assert SatSub(previousUpdate + 2000, previousUpdate) / 1000 == 2;
    assert PerSecond(2000, 2) == 1000;
  }

  /** The `NetMetric` object. */
  class NetMetric {
    var upload: nat
    var download: nat
    var rxBytes: nat
    var txBytes: nat
    const timeout: nat
    var previousUpdate: nat

    function State(): NetState
      reads this
    {
      NetState(upload, download, rxBytes, txBytes, previousUpdate)
    }

    /**
     * `NetMetric::new`: everything zero and the last update one timeout ago,
     * so the first `update` goes ahead. The subtraction panics when the
     * clock is younger than the timeout.
     */
    constructor (timeout: nat, now: nat)
      requires timeout <= now
      ensures this.timeout == timeout && State() == NetState(0, 0, 0, 0, now - timeout)
    {
      this.timeout := timeout;
      upload := 0;
      download := 0;
      rxBytes := 0;
      txBytes := 0;
      previousUpdate := now - timeout;
    }

    /** `update`: the counter files of the interfaces that are up read as `ifaces`. */
    method Update(now: nat, later: nat, ifaces: seq<Interface>)
      modifies this
      ensures State() == NetUpdate(old(State()), timeout, now, later, Totals(ifaces).0, Totals(ifaces).1)
    {
      if SatSub(now, previousUpdate) < timeout {
        return;
      }
      var rx, tx := SumInterfaces(ifaces);
      Store(now, later, rx, tx);
    }

    /** The part of `update` after the counters are read: new rates when they may change, then the new counters. */
    method Store(now: nat, later: nat, rx: nat, tx: nat)
      requires SatSub(now, previousUpdate) >= timeout
      modifies this
      ensures State() == NetUpdate(old(State()), timeout, now, later, rx, tx)
    {
      var secs := SatSub(now, previousUpdate) / 1000;
      if secs > 0 && rx > rxBytes && tx > txBytes && txBytes != 0 && rxBytes != 0 {
        upload := PerSecond(tx - txBytes, secs);
        download := PerSecond(rx - rxBytes, secs);
      }
      rxBytes := rx;
      txBytes := tx;
      previousUpdate := later;
    }
  }

  const DOWN: char := '\U{1F53D}'
  const UP: char := '\U{1F53C}'

  /** `get_value`, with the arrows the literal's bytes encode and two-digit fractions. */
  function NetText(download: nat, upload: nat): (r: string)
    ensures |r| > 5 && r[0] == DOWN && r[|r| - 2..] == "/s"
  {
    var head := [DOWN] + NumfmtPadded(download) + "/s " + [UP] + NumfmtPadded(upload);
    assert (head + "/s")[0] == head[0];
    head + "/s"
  }

  /** The arrows as the literal of `get_value` holds them: four characters each. */
  const DOWN_AS_WRITTEN: string := ['\U{00F0}', '\U{0178}', '\U{201D}', '\U{00BD}']
  const UP_AS_WRITTEN: string := ['\U{00F0}', '\U{0178}', '\U{201D}', '\U{00BC}']

  /** `get_value` as written. */
  function NetTextAsWritten(download: nat, upload: nat): (r: string)
    ensures |r| > 4 && r[..4] == DOWN_AS_WRITTEN && r[|r| - 2..] == "/s"
  {
    var head := DOWN_AS_WRITTEN + Numfmt(download) + "/s " + UP_AS_WRITTEN + Numfmt(upload);
    assert (head + "/s")[..4] == head[..4] == DOWN_AS_WRITTEN;
    head + "/s"
  }

  /**
   * The Windows-1252 reading of a byte; the five codes that encoding leaves
   * undefined have none.
   */
  function Windows1252(b: Byte): Option<char>
  {
    if b < 0x80 || b >= 0xA0 then Some(b as char)
    else
      var table: seq<int> := [
        0x20AC, -1, 0x201A, 0x0192, 0x201E, 0x2026, 0x2020, 0x2021,
        0x02C6, 0x2030, 0x0160, 0x2039, 0x0152, -1, 0x017D, -1,
        -1, 0x2018, 0x2019, 0x201C, 0x201D, 0x2022, 0x2013, 0x2014,
        0x02DC, 0x2122, 0x0161, 0x203A, 0x0153, -1, 0x017E, 0x0178];
      var cp := table[b - 0x80];
      if cp < 0 then None else Some(cp as char)
  }

  function DecodeWindows1252(bs: seq<Byte>): (r: Option<string>)
    ensures r.Some? ==> |r.value| == |bs|
  {
    if |bs| == 0 then Some([])
    else
      var head, rest := Windows1252(bs[0]), DecodeWindows1252(bs[1..]);
      if head.Some? && rest.Some? then Some([head.value] + rest.value) else None
  }

  /**
   * The literal's arrows are the UTF-8 bytes of 🔽 and 🔼 read as
   * Windows-1252, so the bar shows four stray characters for each arrow.
   */
  lemma ArrowsMisdecoded()
    ensures Encode([DOWN]) == [0xF0, 0x9F, 0x94, 0xBD] && Encode([UP]) == [0xF0, 0x9F, 0x94, 0xBC]
    ensures DecodeWindows1252(Encode([DOWN])) == Some(DOWN_AS_WRITTEN)
    ensures DecodeWindows1252(Encode([UP])) == Some(UP_AS_WRITTEN)
    ensures DOWN_AS_WRITTEN != [DOWN] && UP_AS_WRITTEN != [UP]
  {
    EncodeArrow(DOWN, 0xBD);
    EncodeArrow(UP, 0xBC);
    DecodeArrow(0xBD, '\U{00BD}');
    DecodeArrow(0xBC, '\U{00BC}');
  }

  /** The UTF-8 form of the arrows U+1F53C and U+1F53D: all they differ in is the last byte. */
  lemma EncodeArrow(c: char, last: Byte)
    requires c as int == 0x1F500 + (last - 0x80)
    requires 0xBC <= last <= 0xBD
    ensures Encode([c]) == [0xF0, 0x9F, 0x94, last]
  {
    var cp := c as int;
    assert cp / 262144 == 0 && cp / 4096 == 31 && cp / 64 == 2004 && cp % 64 == last - 0x80;
    assert Encode([c]) == EncodeChar(c) + Encode([]);
  }

  lemma DecodeArrow(last: Byte, shown: char)
    requires 0xA0 <= last && shown as int == last
    ensures DecodeWindows1252([0xF0, 0x9F, 0x94, last]) == Some(['\U{00F0}', '\U{0178}', '\U{201D}', shown])
  {
    var b4: seq<Byte> := [0xF0, 0x9F, 0x94, last];
    var b3, b2, b1 := b4[1..], b4[2..], b4[3..];
    DecodeCons(last, []);
    assert [last] + [] == b1;
    assert DecodeWindows1252(b1) == Some([shown]) by {
      assert [shown] + [] == [shown];
    }
    DecodeCons(0x94, b1);
    assert [0x94] + b1 == b2;
    assert DecodeWindows1252(b2) == Some(['\U{201D}', shown]) by {
      assert ['\U{201D}'] + [shown] == ['\U{201D}', shown];
    }
    DecodeCons(0x9F, b2);
    assert [0x9F] + b2 == b3;
    assert DecodeWindows1252(b3) == Some(['\U{0178}', '\U{201D}', shown]) by {
      assert ['\U{0178}'] + ['\U{201D}', shown] == ['\U{0178}', '\U{201D}', shown];
    }
    DecodeCons(0xF0, b3);
    assert [0xF0] + b3 == b4;
    assert ['\U{00F0}'] + ['\U{0178}', '\U{201D}', shown] == ['\U{00F0}', '\U{0178}', '\U{201D}', shown];
  }

  lemma DecodeCons(b: Byte, rest: seq<Byte>)
    requires Windows1252(b).Some? && DecodeWindows1252(rest).Some?
    ensures DecodeWindows1252([b] + rest) == Some([Windows1252(b).value] + DecodeWindows1252(rest).value)
  {
    assert ([b] + rest)[1..] == rest;
  }

  /**
   * `get_value` as written is the corrected layout with each arrow replaced
   * by the Windows-1252 reading of that arrow's UTF-8 bytes.
   */
  lemma NetTextAsWrittenArrows(download: nat, upload: nat)
    ensures DecodeWindows1252(Encode([DOWN])).Some? && DecodeWindows1252(Encode([UP])).Some?
    ensures NetTextAsWritten(download, upload) ==
      DecodeWindows1252(Encode([DOWN])).value + Numfmt(download) + "/s "
      + DecodeWindows1252(Encode([UP])).value + Numfmt(upload) + "/s"
  {
    ArrowsMisdecoded();
  }

  /** As written, the display still splits into the download field and the upload field. */
  lemma NetTextAsWrittenFields(download: nat, upload: nat)
    ensures SplitWhitespace(NetTextAsWritten(download, upload)) ==
      [DOWN_AS_WRITTEN + Numfmt(download) + "/s", UP_AS_WRITTEN + Numfmt(upload) + "/s"]
  {
    NumfmtAsWrittenNoWhitespace(download);
    NumfmtAsWrittenNoWhitespace(upload);
    assert NoWhitespace(DOWN_AS_WRITTEN) && NoWhitespace(UP_AS_WRITTEN);
    TwoFields(DOWN_AS_WRITTEN, Numfmt(download), UP_AS_WRITTEN, Numfmt(upload));
  }

  /** The corrected display splits at its one space into the download field and the upload field. */
  lemma NetTextFields(download: nat, upload: nat)
    ensures SplitWhitespace(NetText(download, upload)) ==
      [[DOWN] + NumfmtPadded(download) + "/s", [UP] + NumfmtPadded(upload) + "/s"]
  {
    NumfmtNoWhitespace(download);
    NumfmtNoWhitespace(upload);
    TwoFields([DOWN], NumfmtPadded(download), [UP], NumfmtPadded(upload));
  }

  /** Two glyph-led "/s" fields joined by a space split back into the two fields. */
  lemma TwoFields(g: string, x: string, h: string, y: string)
    requires |g| > 0 && |h| > 0 && NoWhitespace(g) && NoWhitespace(h) && NoWhitespace(x) && NoWhitespace(y)
    ensures SplitWhitespace(g + x + "/s " + h + y + "/s") == [g + x + "/s", h + y + "/s"]
  {
    var a := g + x + "/s";
    var b := h + y + "/s";
    RateField(g, x);
    RateField(h, y);
    assert g + x + "/s " + h + y + "/s" == a + " " + b;
    SplitTwo(a, b);
  }

  lemma RateField(g: string, x: string)
    requires NoWhitespace(g) && NoWhitespace(x)
    ensures NoWhitespace(g + x + "/s")
  {
    var a := g + x + "/s";
    assert forall i :: 0 <= i < |g| ==> a[i] == g[i];
    assert forall i :: |g| <= i < |a| - 2 ==> a[i] == x[i - |g|];
  }

  lemma NumfmtAsWrittenNoWhitespace(number: nat)
    ensures NoWhitespace(Numfmt(number))
  {
    var n, rem, p := Scaled(number), Remainder(number), Level(number);
    var d := Decimal(n);
    assert forall i :: 0 <= i < |d| ==> IsDigit(d[i]);
    assert NoWhitespace(POWERS[p]);
    if rem > 0 && n < 1000 {
      var f := Decimal(rem);
      assert forall i :: 0 <= i < |f| ==> IsDigit(f[i]);
    }
  }

  lemma NumfmtNoWhitespace(number: nat)
    ensures NoWhitespace(NumfmtPadded(number))
  {
    var n, rem, p := Scaled(number), Remainder(number), Level(number);
    var d := Decimal(n);
    assert forall i :: 0 <= i < |d| ==> IsDigit(d[i]);
    assert NoWhitespace(POWERS[p]);
    if rem > 0 && n < 1000 {
      var f := TwoDigits(rem);
      assert forall i :: 0 <= i < |f| ==> IsDigit(f[i]);
    }
  }
}

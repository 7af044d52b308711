/**
 * The battery metric of src/metrics/battery.rs: shown only below a charge
 * threshold, with a glyph for the charging state. The two sysfs files are
 * given as the first line `read_line` returned from each (with its newline),
 * or `None` when the file could not be read.
 */
module Battery {
  import opened Wrappers
  import opened Text

  /** The largest `u8`. */
  const U8_MAX: nat := 255

  /** `get_timeout`: the battery is polled on every tick. */
  const TIMEOUT: nat := 0

  const CHARGING: string := ['\U{1F50C}', '\U{1F53C}']
  const DISCHARGING: string := ['\U{1F50B}', '\U{1F53D}']
  const UNKNOWN: string := ['\U{1F50B}']

  /** The glyph for the status file: by its trimmed text, the plain battery when unknown or unreadable. */
  function StatusGlyph(status: Option<string>): (g: string)
    ensures status.Some? && Trim(status.value) == "Charging" ==> g == CHARGING
    ensures status.Some? && Trim(status.value) == "Discharging" ==> g == DISCHARGING
    ensures status.None? || (Trim(status.value) != "Charging" && Trim(status.value) != "Discharging") ==> g == UNKNOWN
  {
    match status
    case Some(s) =>
      if Trim(s) == "Charging" then CHARGING
      else if Trim(s) == "Discharging" then DISCHARGING
      else UNKNOWN
    case None => UNKNOWN
  }

  /**
   * `get_value` with `threshold` the configured `u8`: the text when the
   * capacity file reads as a `u8` below the threshold, `None` otherwise.
   */
  function BatteryText(threshold: nat, capacity: Option<string>, status: Option<string>): (r: Option<string>)
    requires threshold <= U8_MAX
    ensures r.Some? <==>
      capacity.Some? && ParseUnsigned(Trim(capacity.value), U8_MAX).Some?
      && ParseUnsigned(Trim(capacity.value), U8_MAX).value < threshold
    ensures r.Some? ==>
      r.value == StatusGlyph(status) + " " + Decimal(ParseUnsigned(Trim(capacity.value), U8_MAX).value) + "%"
  {
    match capacity
    case None => None
    case Some(c) =>
      var emoji := StatusGlyph(status);
      match ParseUnsigned(Trim(c), U8_MAX)
      case None => None
      case Some(percentage) =>
        if percentage < threshold then Some(emoji + " " + Decimal(percentage) + "%") else None
  }

  /**
   * The files as the kernel writes them, a number and a status word each on
   * a line of its own: the text is shown exactly when the charge is below the
   * threshold, and then reads back as the glyph, the charge and a percent sign.
   */
  lemma BatteryFromSysfs(threshold: nat, charge: nat, status: string)
    requires threshold <= U8_MAX && charge <= 100
    requires |status| > 0 && !IsWhitespace(status[0]) && !IsWhitespace(status[|status| - 1])
    ensures var r := BatteryText(threshold, Some(Decimal(charge) + "\n"), Some(status + "\n"));
      && (r.Some? <==> charge < threshold)
      && (r.Some? ==> r.value == StatusGlyph(Some(status)) + " " + Decimal(charge) + "%")
      && (status == "Charging" ==> StatusGlyph(Some(status + "\n")) == CHARGING)
      && (status == "Discharging" ==> StatusGlyph(Some(status + "\n")) == DISCHARGING)
  {
    var d := Decimal(charge);
    assert IsDigit(d[0]) && IsDigit(d[|d| - 1]);
    TrimLine(d);
    TrimLine(status);
    ParseDecimal(charge, U8_MAX);
  }

  /** A charge of 256 or more is not a `u8`, so nothing is shown, whatever the threshold. */
  lemma BatteryOutOfRange(threshold: nat, charge: nat, status: Option<string>)
    requires threshold <= U8_MAX && charge > U8_MAX
    ensures BatteryText(threshold, Some(Decimal(charge) + "\n"), status) == None
  {
    var d := Decimal(charge);
    assert IsDigit(d[0]) && IsDigit(d[|d| - 1]);
    TrimLine(d);
    DecimalValue(charge);
    assert !(|d| > 1 && d[0] == '+');
  }
}

/**
 * The keyboard-layout metric of src/metrics/xkblayout.rs: a cached locale
 * that formatting refreshes from `xkb-switch` once the cache is older than
 * the timeout. Instants are natural numbers on one clock; the command's
 * output is a parameter, `None` when it could not be spawned.
 */
module XkbLayout {
  import opened Wrappers
  import opened Arith
  import opened Utf8
  import opened Text

  const GLOBE: char := '\U{1F30D}'

  /** The two cells of the metric. */
  datatype Layout = Layout(lastUpdatedAt: nat, locale: string)

  /**
   * `update` at instant `later` with command output `out`: the new cells and
   * whether it succeeded. A spawn failure changes nothing; otherwise the
   * timestamp moves to `later`, and output that is UTF-8 replaces the locale
   * by the output without its one trailing newline.
   */
  function Refresh(s: Layout, later: nat, out: Option<seq<Byte>>): (r: (Layout, bool))
    ensures out.None? ==> r == (s, false)
    ensures out.Some? ==> r.0.lastUpdatedAt == later
    ensures r.1 <==> out.Some? && Valid(out.value)
    ensures !r.1 ==> r.0.locale == s.locale
    ensures r.1 ==> Valid(out.value) && (Decode(out.value) == r.0.locale || Decode(out.value) == r.0.locale + ['\n'])
  {
    match out
    case None => (s, false)
    case Some(stdout) =>
      if !Valid(stdout) then (Layout(later, s.locale), false)
      else (Layout(later, StripSuffix(Decode(stdout), '\n')), true)
  }

  /** The text written: the globe, a space and the locale. */
  function Shown(locale: string): (text: string)
    ensures |text| == |locale| + 2 && text[..2] == [GLOBE, ' '] && text[2..] == locale
  {
    [GLOBE, ' '] + locale
  }

  /**
   * `fmt` at instant `now` (refreshing at `later` with output `out` when
   * the cache is older than `timeout`): the new cells and the text, `None`
   * when the refresh failed and the error is returned.
   */
  function Format(s: Layout, timeout: nat, now: nat, later: nat, out: Option<seq<Byte>>): (r: (Layout, Option<string>))
    ensures SatSub(now, s.lastUpdatedAt) <= timeout ==> r == (s, Some(Shown(s.locale)))
    ensures SatSub(now, s.lastUpdatedAt) > timeout ==>
      r.0 == Refresh(s, later, out).0
      && (r.1.Some? <==> Refresh(s, later, out).1)
      && (r.1.Some? ==> r.1.value == Shown(r.0.locale))
  {
    if SatSub(now, s.lastUpdatedAt) > timeout then
      var (s', ok) := Refresh(s, later, out);
      if ok then (s', Some(Shown(s'.locale))) else (s', None)
    else (s, Some(Shown(s.locale)))
  }

  /** A layout name printed on a line of its own is stored as the name, newline dropped. */
  lemma RefreshLine(s: Layout, later: nat, name: string)
    ensures Refresh(s, later, Some(Encode(name + "\n"))) == (Layout(later, name), true)
  {
    DecodeEncode(name + "\n");
    assert (name + "\n")[..|name|] == name;
  }

  /** Output without a trailing newline is stored whole. */
  lemma RefreshNoNewline(s: Layout, later: nat, name: string)
    requires |name| == 0 || name[|name| - 1] != '\n'
    ensures Refresh(s, later, Some(Encode(name))) == (Layout(later, name), true)
  {
    DecodeEncode(name);
  }

  /** Output that is not UTF-8 moves the timestamp only, so the next refresh waits a full timeout. */
  lemma RefreshInvalid(s: Layout, timeout: nat, later: nat, stdout: seq<Byte>, now: nat)
    requires !Valid(stdout) && now <= later + timeout
    ensures Refresh(s, later, Some(stdout)) == (Layout(later, s.locale), false)
    ensures Format(Layout(later, s.locale), timeout, now, now, None) == (Layout(later, s.locale), Some(Shown(s.locale)))
  {
  }

  /** A successful refresh is shown at once and then served from the cache until the timeout passes. */
  lemma RefreshThenCached(s: Layout, timeout: nat, now: nat, later: nat, name: string, other: Option<seq<Byte>>, next: nat)
    requires SatSub(now, s.lastUpdatedAt) > timeout && next <= later + timeout
    ensures var (s', text) := Format(s, timeout, now, later, Some(Encode(name + "\n")));
      && s' == Layout(later, name) && text == Some(Shown(name))
      && Format(s', timeout, next, next, other) == (s', text)
  {
    RefreshLine(s, later, name);
  }

  /** The metric object. */
  class XkbLayoutMetric {
    const timeout: nat
    var lastUpdatedAt: nat
    var locale: string

    function State(): Layout
      reads this
    {
      Layout(lastUpdatedAt, locale)
    }

    /** `new` at instant `now`: an empty locale that counts as fresh. */
    constructor (timeout: nat, now: nat)
      ensures this.timeout == timeout && State() == Layout(now, "")
    {
      this.timeout := timeout;
      lastUpdatedAt := now;
      locale := "";
    }

    /** `update`: `ok` is the `Ok(())` result. */
    method Update(later: nat, out: Option<seq<Byte>>) returns (ok: bool)
      modifies this
      ensures (State(), ok) == Refresh(old(State()), later, out)
    {
      if out.None? {
        return false;
      }
      lastUpdatedAt := later;
      if !Valid(out.value) {
        return false;
      }
      var loc := Decode(out.value);
      locale := if |loc| > 0 && loc[|loc| - 1] == '\n' then loc[..|loc| - 1] else loc;
      ok := true;
    }

    /** `fmt`: the text written, `None` for the error. */
    method Fmt(now: nat, later: nat, out: Option<seq<Byte>>) returns (text: Option<string>)
      modifies this
      ensures (State(), text) == Format(old(State()), timeout, now, later, out)
    {
      ghost var s0 := State();
      if SatSub(now, lastUpdatedAt) > timeout {
        var ok := Update(later, out);
        assert (State(), ok) == Refresh(s0, later, out);
        if !ok {
          return None;
        }
      }
      text := Some([GLOBE, ' '] + locale);
      assert text == Some(Shown(State().locale));
    }
  }

  /** Right after `new`, before the timeout passes, the metric shows the globe and an empty locale. */
  lemma InitialShowsGlobe(timeout: nat, created: nat, now: nat, out: Option<seq<Byte>>)
    requires now <= created + timeout
    ensures Format(Layout(created, ""), timeout, now, now, out).1 == Some([GLOBE, ' '])
  {
    assert SatSub(now, created) <= timeout;
    assert Format(Layout(created, ""), timeout, now, now, out).1 == Some(Shown(""));
    assert Shown("") == [GLOBE, ' '];
  }
}

/**
 * The channel revision of the updates metric, src/metrics/update.channels.rs:
 * a background thread sends `(count, kernel flag)` after every run of
 * `checkupdates`, and `get_value` takes at most one message per call,
 * keeping the last one in a cache.
 *
 * The thread decodes the output lossily and then counts lines and looks for
 * "linux". Lossy decoding only replaces ill-formed sequences, never ASCII
 * bytes, so newlines and the letters of "linux" are found at the same places
 * in the raw bytes; this model counts on the bytes.
 */
module UpdatesChannel {
  import opened Wrappers
  import opened Utf8
  import opened Text

  /** One run of the command: it could not be spawned, or it exited, successfully or not, with this output. */
  datatype Run = SpawnFailed | Exited(success: bool, stdout: seq<Byte>)

  const NEWLINE: Byte := 10
  /** "linux" in ASCII. */
  const KERNEL: seq<Byte> := [0x6C, 0x69, 0x6E, 0x75, 0x78]
  const GLYPH: char := '\U{1F501}'

  /** The message sent after a run that exited: `(0, false)` for a failure exit. */
  function Message(success: bool, stdout: seq<Byte>): (m: (nat, bool))
    ensures m.1 <==> success && Contains(stdout, KERNEL)
    ensures m.0 == 0 <==> !success || |stdout| == 0
  {
    if !success then (0, false) else (LineCount(stdout, NEWLINE), Contains(stdout, KERNEL))
  }

  /**
   * The messages the thread sends for the successive runs `runs`, up to the
   * first run that cannot be spawned, where `expect` panics and the thread
   * ends; the end of `runs` stands for the stop signal.
   */
  function Sent(runs: seq<Run>): (r: seq<(nat, bool)>)
    ensures |r| <= |runs|
  {
    if |runs| == 0 || runs[0].SpawnFailed? then []
    else [Message(runs[0].success, runs[0].stdout)] + Sent(runs[1..])
  }

  /** The `k`-th message belongs to the `k`-th run, which exited, and no run before it failed to spawn. */
  lemma {:induction false} SentAt(runs: seq<Run>, k: nat)
    requires k < |Sent(runs)|
    ensures forall j :: 0 <= j <= k ==> runs[j].Exited?
    ensures Sent(runs)[k] == Message(runs[k].success, runs[k].stdout)
    decreases k
  {
    if k > 0 {
      SentAt(runs[1..], k - 1);
      assert forall j :: 1 <= j <= k ==> runs[j] == runs[1..][j - 1];
    }
  }

  /** The thread stops at a spawn failure, or runs through all runs when none fails. */
  lemma {:induction false} SentLength(runs: seq<Run>)
    ensures |Sent(runs)| == |runs| <==> forall j :: 0 <= j < |runs| ==> runs[j].Exited?
    ensures |Sent(runs)| < |runs| ==> runs[|Sent(runs)|].SpawnFailed?
    decreases |runs|
  {
    if |runs| > 0 && runs[0].Exited? {
      SentLength(runs[1..]);
      assert forall j :: 1 <= j < |runs| ==> runs[j] == runs[1..][j - 1];
    }
  }

  /** `updater`: one message per run until a spawn fails or the runs end. */
  method Updater(runs: seq<Run>) returns (sent: seq<(nat, bool)>, panicked: bool)
    ensures sent == Sent(runs)
    ensures panicked <==> |sent| < |runs|
  {
    sent := [];
    var i := 0;
    while i < |runs|
      invariant i <= |runs|
      invariant sent + Sent(runs[i..]) == Sent(runs)
      invariant |sent| == i
    {
      assert runs[i..][0] == runs[i] && runs[i..][1..] == runs[i + 1..];
      if runs[i].SpawnFailed? {
        assert sent == Sent(runs);
        return sent, true;
      }
      var message := if !runs[i].success then (0, false)
        else (LineCount(runs[i].stdout, NEWLINE), Contains(runs[i].stdout, KERNEL));
      sent := sent + [message];
      i := i + 1;
    }
    assert runs[i..] == [];
    assert sent == Sent(runs);
    panicked := false;
  }

  /** What one `try_recv` gives. */
  datatype TryRecv = Received(count: nat, systemUpdate: bool) | Empty | Disconnected

  /** `format!("🔁{} {}", sign, updates_count)`. */
  function Format(count: nat, systemUpdate: bool): (s: string)
    ensures |s| > 2 && s[0] == GLYPH && (s[1] == '!' <==> systemUpdate)
    ensures |s| > |Decimal(count)| + 1 && s[|s| - |Decimal(count)| - 1..] == " " + Decimal(count)
  {
    [GLYPH] + (if systemUpdate then "!" else "") + " " + Decimal(count)
  }

  /** A formatted text splits into the marker and the count, which reads back as the count. */
  lemma FormatReadsBack(count: nat, systemUpdate: bool)
    ensures var marker := if systemUpdate then [GLYPH, '!'] else [GLYPH];
      && SplitWhitespace(Format(count, systemUpdate)) == [marker, Decimal(count)]
      && ParseUnsigned(SplitWhitespace(Format(count, systemUpdate))[1], count) == Some(count)
  {
    var marker := if systemUpdate then [GLYPH, '!'] else [GLYPH];
    var d := Decimal(count);
    assert forall i :: 0 <= i < |d| ==> IsDigit(d[i]);
    assert Format(count, systemUpdate) == marker + " " + d;
    SplitTwo(marker, d);
    ParseDecimal(count, count);
  }

  /** The cache: the last count and flag taken from the channel. */
  datatype Cache = Cache(count: nat, systemUpdate: bool)

  /** `get_value`: the new cache and the text shown. */
  function Receive(cache: Cache, r: TryRecv): (res: (Cache, string))
    ensures res.0 != cache ==> r.Received? && r.count > 0 && res.0 == Cache(r.count, r.systemUpdate)
    ensures res.1 == "" || res.1 == Format(res.0.count, res.0.systemUpdate)
  {
    match r
    case Received(0, _) => (cache, "")
    case Received(a, b) => (Cache(a, b), Format(a, b))
    case Empty => (cache, Format(cache.count, cache.systemUpdate))
    case Disconnected => (cache, "")
  }

  /** A message with count 0 shows nothing and does not touch the cache. */
  lemma ReceiveZero(cache: Cache, b: bool)
    ensures Receive(cache, Received(0, b)) == (cache, "")
  {
  }

  /** Any other message replaces the cache and is shown; a later empty poll shows it again. */
  lemma ReceiveThenEmpty(cache: Cache, a: nat, b: bool)
    requires a > 0
    ensures var (c1, t1) := Receive(cache, Received(a, b));
      && c1 == Cache(a, b) && t1 == Format(a, b) && t1 != ""
      && Receive(c1, Empty) == (c1, t1)
  {
  }

  /** Without a message the cache is shown: "🔁 0" before the first message. */
  lemma EmptyShowsCache(cache: Cache)
    ensures Receive(cache, Empty) == (cache, Format(cache.count, cache.systemUpdate))
    ensures Receive(Cache(0, false), Empty).1 == [GLYPH, ' ', '0']
  {
    assert Decimal(0) == "0";
  }

  /** A closed channel shows nothing, leaving the cache as it is. */
  lemma DisconnectedShowsNothing(cache: Cache)
    ensures Receive(cache, Disconnected) == (cache, "")
  {
  }

  /**
   * End to end: a failure exit sends `(0, false)`, which is not shown; a
   * successful run with output is shown with its line count.
   */
  lemma RunShown(cache: Cache, success: bool, stdout: seq<Byte>)
    ensures var (count, flag) := Message(success, stdout);
      && (!success || |stdout| == 0 ==> Receive(cache, Received(count, flag)) == (cache, ""))
      && (success && |stdout| > 0 ==>
            Receive(cache, Received(count, flag)).1 == Format(LineCount(stdout, NEWLINE), Contains(stdout, KERNEL)))
  {
    if success && |stdout| > 0 {
      assert LineCount(stdout, NEWLINE) > 0;
    }
  }

  /** The metric object: the two cells of the cache and the sleep between runs. */
  class UpdatesMetric {
    var updatesCount: nat
    var systemUpdate: bool
    const timeout: nat

    function CacheOf(): Cache
      reads this
    {
      Cache(updatesCount, systemUpdate)
    }

    /** `UpdatesMetric::new` without the thread: an empty cache. */
    constructor (timeout: nat)
      ensures this.timeout == timeout && CacheOf() == Cache(0, false)
    {
      this.timeout := timeout;
      updatesCount := 0;
      systemUpdate := false;
    }

    /** `get_value` on the result `r` of `try_recv`. */
    method GetValue(r: TryRecv) returns (text: string)
      modifies this
      ensures (CacheOf(), text) == Receive(old(CacheOf()), r)
    {
      var count, flag;
      match r {
        case Received(a, b) =>
          if a == 0 {
            return "";
          }
          count, flag := a, b;
        case Empty =>
          count, flag := updatesCount, systemUpdate;
        case Disconnected =>
          return "";
      }
      updatesCount := count;
      systemUpdate := flag;
      var sign := if flag then "!" else "";
      text := [GLYPH] + sign + " " + Decimal(count);
    }
  }
}

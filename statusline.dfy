/**
 * The render tick of src/main.rs: every metric's display text is written, in
 * a fixed order, through a `Cursor` into a fresh zeroed 256-byte buffer, each
 * text that moved the cursor followed by the separator " | "; the first
 * min(position, 93) bytes must be well-formed UTF-8 (otherwise the tick is
 * skipped), and all trailing separators are trimmed before the line goes to
 * the bar.
 *
 * A display text is a Rust `String`, so it is modelled as a Dafny string and
 * written as its UTF-8 encoding. The bar itself (`xsetroot::set_on_bar`) is
 * reduced to whether setting the line succeeded.
 */
module StatusLine {
  import opened Wrappers
  import opened Utf8
  import opened Text
  import opened Buffer

  /** Size of the per-tick buffer. */
  const CAPACITY: nat := 256
  /** Longest line sent to the bar, in bytes. */
  const CUT: nat := 93
  /** `" | "` as bytes. */
  const SEP: seq<Byte> := [32, 124, 32]
  const SEP_TEXT: string := " | "

  /** The display texts of the seven metrics of the bar. */
  datatype Displays = Displays(net: string, cpu: string, bluetooth: string, xkb: string,
                               updates: string, battery: string, date: string)

  /** The order in which the tick writes the metrics. */
  function Order(d: Displays): (texts: seq<string>)
    ensures |texts| == 7
    ensures texts[0] == d.net && texts[1] == d.cpu && texts[2] == d.bluetooth && texts[3] == d.xkb
    ensures texts[4] == d.updates && texts[5] == d.battery && texts[6] == d.date
  {
    [d.net, d.cpu, d.bluetooth, d.xkb, d.updates, d.battery, d.date]
  }

  function Bytes(texts: seq<string>): (r: seq<seq<Byte>>)
    ensures |r| == |texts| && forall k :: 0 <= k < |texts| ==> r[k] == Encode(texts[k])
  {
    seq(|texts|, k requires 0 <= k < |texts| => Encode(texts[k]))
  }

  /**
   * One metric written through the cursor onto what the buffer already
   * holds: the text up to the capacity, then the separator, also up to the
   * capacity, if the text moved the cursor.
   */
  function Emit(acc: seq<Byte>, text: seq<Byte>): seq<Byte>
  {
    var a := Take(acc + text, CAPACITY);
    if |a| != |acc| then Take(a + SEP, CAPACITY) else a
  }

  /** What the buffer holds, up to the cursor, after the given texts have been written in order. */
  function Written(texts: seq<seq<Byte>>): (w: seq<Byte>)
    ensures |w| <= CAPACITY
    decreases |texts|
  {
    if |texts| == 0 then []
    else Emit(Written(texts[..|texts| - 1]), texts[|texts| - 1])
  }

  /** The reference layout: each non-empty text followed by the separator, with no capacity. */
  function Join(texts: seq<seq<Byte>>): seq<Byte>
    decreases |texts|
  {
    if |texts| == 0 then []
    else
      var last := texts[|texts| - 1];
      Join(texts[..|texts| - 1]) + (if |last| > 0 then last + SEP else [])
  }

  /** The same layout on the texts themselves. */
  function JoinText(texts: seq<string>): string
    decreases |texts|
  {
    if |texts| == 0 then []
    else
      var last := texts[|texts| - 1];
      JoinText(texts[..|texts| - 1]) + (if |last| > 0 then last + SEP_TEXT else [])
  }

  /** `str::trim_end_matches(" | ")`: every trailing repetition of the separator is removed. */
  function TrimSep(s: string): (r: string)
    ensures |r| <= |s| && r == s[..|r|]
    ensures !EndsWithSep(r)
    ensures (|s| - |r|) % 3 == 0 && s == r + Seps((|s| - |r|) / 3)
    decreases |s|
  {
    if EndsWithSep(s) then
      var t := TrimSep(s[..|s| - 3]);
      assert s == s[..|s| - 3] + SEP_TEXT;
      t
    else s
  }

  /** `k` separators in a row. */
  function Seps(k: nat): (r: string)
    ensures |r| == 3 * k
  {
    if k == 0 then [] else Seps(k - 1) + SEP_TEXT
  }

  predicate EndsWithSep(s: string)
  {
    |s| >= 3 && s[|s| - 3..] == SEP_TEXT
  }

  /**
   * The line a tick sends: the first min(position, 93) bytes of the buffer,
   * and nothing (the tick is skipped) when they are not well-formed UTF-8.
   */
  function Line(texts: seq<string>): (r: Option<string>)
    ensures r.Some? ==> !EndsWithSep(r.value)
  {
    var w := Written(Bytes(texts));
    var b := w[..if |w| <= CUT then |w| else CUT];
    if Valid(b) then Some(TrimSep(Decode(b))) else None
  }

  lemma TakeTake<T>(x: seq<T>, y: seq<T>, n: nat)
    ensures Take(Take(x, n) + y, n) == Take(x + y, n)
  {
    if |x| > n {
      assert (x[..n] + y)[..n] == (x + y)[..n];
    }
  }

  /**
   * The cursor writes exactly the reference layout cut at the capacity: a
   * separator follows a text only if the text was not empty, and nothing
   * beyond 256 bytes survives.
   */
  lemma {:induction false} WrittenIsJoin(texts: seq<seq<Byte>>)
    ensures Written(texts) == Take(Join(texts), CAPACITY)
    decreases |texts|
  {
    if |texts| > 0 {
      var init := texts[..|texts| - 1];
      WrittenIsJoin(init);
      EmitJoin(Join(init), texts[|texts| - 1]);
    }
  }

  /** One emit onto the cut layout is the cut of the layout with one more text. */
  lemma EmitJoin(j: seq<Byte>, last: seq<Byte>)
    ensures Emit(Take(j, CAPACITY), last) == Take(j + (if |last| > 0 then last + SEP else []), CAPACITY)
  {
    var acc := Take(j, CAPACITY);
    TakeTake(j, last, CAPACITY);
    var a := Take(acc + last, CAPACITY);
    if |a| != |acc| {
      assert |last| > 0;
      TakeTake(j + last, SEP, CAPACITY);
      assert j + last + SEP == j + (last + SEP);
    } else if |last| > 0 {
      assert |j| >= CAPACITY;
      assert acc == j[..CAPACITY];
      assert (j + (last + SEP))[..CAPACITY] == j[..CAPACITY];
    } else {
      assert j + [] == j;
    }
  }

  /** A metric that displays nothing leaves the buffer, separators included, as it was. */
  lemma EmptyTextWritesNothing(texts: seq<seq<Byte>>)
    ensures Written(texts + [[]]) == Written(texts)
  {
    assert (texts + [[]])[..|texts|] == texts;
  }

  /** The layouts of the texts and of their bytes agree. */
  lemma {:induction false} JoinBytes(texts: seq<string>)
    ensures Join(Bytes(texts)) == Encode(JoinText(texts))
    decreases |texts|
  {
    if |texts| > 0 {
      var init := texts[..|texts| - 1];
      var last := texts[|texts| - 1];
      assert Bytes(texts)[..|texts| - 1] == Bytes(init);
      JoinBytes(init);
      EncodeAscii(SEP_TEXT);
      assert Encode(SEP_TEXT) == SEP;
      if |last| > 0 {
        EncodeConcat(last, SEP_TEXT);
        EncodeConcat(JoinText(init), last + SEP_TEXT);
      } else {
        assert Encode(last) == [];
        assert Join(Bytes(texts)) == Join(Bytes(init)) + [];
        assert JoinText(texts) == JoinText(init) + [];
        assert JoinText(texts) == JoinText(init);
        assert Join(Bytes(texts)) == Join(Bytes(init));
      }
    }
  }

  lemma PrefixEncode(s: string, k: nat)
    requires k <= |s|
    ensures |Encode(s[..k])| <= |Encode(s)| && Encode(s[..k]) == Encode(s)[..|Encode(s[..k])|]
  {
    assert s == s[..k] + s[k..];
    EncodeConcat(s[..k], s[k..]);
  }

  /**
   * What a sent line is: its UTF-8 bytes are a prefix of the reference layout
   * of at most 93 bytes, and it never ends with the separator.
   */
  lemma LineShape(texts: seq<string>)
    ensures Line(texts).Some? ==>
      var b := Encode(Line(texts).value);
      && |b| <= CUT
      && |b| <= |Join(Bytes(texts))| && b == Join(Bytes(texts))[..|b|]
      && !EndsWithSep(Line(texts).value)
  {
    var w := Written(Bytes(texts));
    var b := w[..if |w| <= CUT then |w| else CUT];
    WrittenIsJoin(Bytes(texts));
    if Valid(b) {
      var s := Decode(b);
      EncodeDecode(b);
      PrefixEncode(s, |TrimSep(s)|);
      assert Encode(TrimSep(s)) == b[..|Encode(TrimSep(s))|];
      assert b == Join(Bytes(texts))[..|b|];
    }
  }

  /** The tick is skipped exactly when the cut falls inside a multi-byte character. */
  lemma LineSkipped(texts: seq<string>)
    ensures Line(texts).None? <==> !Valid(Take(Join(Bytes(texts)), CUT))
  {
    var j := Join(Bytes(texts));
    WrittenIsJoin(Bytes(texts));
    if |j| > CUT {
      var w := Written(Bytes(texts));
      assert w[..CUT] == j[..CUT];
    }
  }

  /**
   * When the whole layout fits in 93 bytes nothing is skipped or cut: the
   * line is the texts joined by separators, trailing separators trimmed.
   */
  lemma LineWhenFits(texts: seq<string>)
    requires |Encode(JoinText(texts))| <= CUT
    ensures Line(texts) == Some(TrimSep(JoinText(texts)))
  {
    JoinBytes(texts);
    WrittenIsJoin(Bytes(texts));
    DecodeEncode(JoinText(texts));
  }

  /** `Cursor<&mut [u8]>` over the tick's buffer. */
  class Cursor {
    const buf: array<Byte>
    var pos: nat

    ghost predicate Valid()
      reads this
    {
      pos <= buf.Length
    }

    /** The bytes written so far. */
    function Contents(): seq<Byte>
      requires Valid()
      reads this, buf
    {
      buf[..pos]
    }

    constructor (buf: array<Byte>)
      ensures Valid() && this.buf == buf && pos == 0
    {
      this.buf := buf;
      pos := 0;
    }

    /**
     * `write_all`: as many bytes as fit are copied; once the buffer is full
     * the rest is dropped (the write reports an error that the tick only logs).
     */
    method Write(data: seq<Byte>)
      requires Valid()
      modifies this, buf
      ensures Valid()
      ensures Contents() == Take(old(Contents()) + data, buf.Length)
    {
      var amount := if |data| <= buf.Length - pos then |data| else buf.Length - pos;
      CopyInto(buf, pos, data[..amount]);
      pos := pos + amount;
      assert Take(old(buf[..pos]) + data, buf.Length) == old(buf[..pos]) + data[..amount];
    }

    /** One metric's text, then the separator if the text moved the cursor. */
    method WriteMetric(data: seq<Byte>)
      requires Valid() && buf.Length == CAPACITY
      modifies this, buf
      ensures Valid()
      ensures Contents() == Emit(old(Contents()), data)
    {
      var previous := pos;
      Write(data);
      if previous != pos {
        Write(SEP);
      }
    }
  }

  /**
   * The body of one tick up to the trim, over the metrics in the order they
   * are written: compose the line the bar is set to, if any.
   */
  method Compose(texts: seq<string>) returns (line: Option<string>)
    ensures line == Line(texts)
  {
    var buf := new Byte[CAPACITY](_ => 0);
    var writer := new Cursor(buf);
    WriteAll(writer, texts);
    var position := if writer.pos <= CUT then writer.pos else CUT;
    var prefix := buf[..position];
    assert prefix == writer.Contents()[..position];
    if Valid(prefix) {
      line := Some(TrimSep(Decode(prefix)));
    } else {
      line := None;
    }
  }

  /** Every metric in turn through the cursor, starting on an empty buffer. */
  method WriteAll(writer: Cursor, texts: seq<string>)
    requires writer.Valid() && writer.buf.Length == CAPACITY && writer.pos == 0
    modifies writer, writer.buf
    ensures writer.Valid() && writer.Contents() == Written(Bytes(texts))
  {
    ghost var bytes := Bytes(texts);
    for k := 0 to |texts|
      invariant writer.Valid()
      invariant writer.Contents() == Written(bytes[..k])
    {
      assert bytes[..k + 1][..k] == bytes[..k];
      writer.WriteMetric(Encode(texts[k]));
    }
    assert bytes[..|texts|] == bytes;
  }

  /** The tick over the bar's seven metrics, written net first and date last. */
  method ComposeBar(d: Displays) returns (line: Option<string>)
    ensures line == Line(Order(d))
  {
    line := Compose(Order(d));
  }

  /**
   * One tick of the render loop: the display texts in the order they are
   * written (`Order` of the bar's metrics), and whether the bar accepts a line.
   */
  datatype Tick = Tick(texts: seq<string>, sinkOk: bool)

  /** The line each tick composes. */
  function Lines(ticks: seq<Tick>): (r: seq<Option<string>>)
    ensures |r| == |ticks|
    decreases |ticks|
  {
    if |ticks| == 0 then []
    else Lines(ticks[..|ticks| - 1]) + [Line(ticks[|ticks| - 1].texts)]
  }

  lemma {:induction false} LinesAt(ticks: seq<Tick>, k: nat)
    requires k < |ticks|
    ensures Lines(ticks)[k] == Line(ticks[k].texts)
    decreases |ticks|
  {
    if k < |ticks| - 1 {
      LinesAt(ticks[..|ticks| - 1], k);
    }
  }

  /**
   * The lines handed to the bar, given the line each tick composed and
   * whether the bar accepted it: a skipped tick sends nothing, and the first
   * line the bar refuses ends the loop.
   */
  function Deliver(lines: seq<Option<string>>, accepted: seq<bool>): (r: seq<string>)
    requires |lines| == |accepted|
    ensures |r| <= |lines|
    decreases |lines|
  {
    if |lines| == 0 then []
    else match lines[0]
      case None => Deliver(lines[1..], accepted[1..])
      case Some(l) => [l] + (if accepted[0] then Deliver(lines[1..], accepted[1..]) else [])
  }

  function Accepted(ticks: seq<Tick>): (r: seq<bool>)
    ensures |r| == |ticks| && forall k :: 0 <= k < |ticks| ==> r[k] == ticks[k].sinkOk
  {
    seq(|ticks|, k requires 0 <= k < |ticks| => ticks[k].sinkOk)
  }

  /** The lines a run of the loop sends to the bar. */
  function Sent(ticks: seq<Tick>): seq<string>
  {
    Deliver(Lines(ticks), Accepted(ticks))
  }

  /** Every line handed to the bar is one a tick composed. */
  lemma {:induction false} DeliverFrom(lines: seq<Option<string>>, accepted: seq<bool>)
    requires |lines| == |accepted|
    ensures forall k :: 0 <= k < |Deliver(lines, accepted)| ==> Some(Deliver(lines, accepted)[k]) in lines
    decreases |lines|
  {
    if |lines| > 0 {
      DeliverFrom(lines[1..], accepted[1..]);
      forall j | 0 <= j < |lines| - 1 ensures lines[1..][j] in lines {
        assert lines[1..][j] == lines[j + 1];
      }
    }
  }

  /** Every line sent over any run has the shape of `LineShape`. */
  lemma SentShape(ticks: seq<Tick>)
    ensures forall k :: 0 <= k < |Sent(ticks)| ==> |Encode(Sent(ticks)[k])| <= CUT && !EndsWithSep(Sent(ticks)[k])
  {
    DeliverFrom(Lines(ticks), Accepted(ticks));
    forall k | 0 <= k < |Sent(ticks)|
      ensures |Encode(Sent(ticks)[k])| <= CUT && !EndsWithSep(Sent(ticks)[k])
    {
      var j :| 0 <= j < |ticks| && Lines(ticks)[j] == Some(Sent(ticks)[k]);
      LinesAt(ticks, j);
      LineShape(ticks[j].texts);
    }
  }

  /** After a line the bar refuses, no later tick has any effect. */
  lemma {:induction false} RefusalEnds(lines: seq<Option<string>>, accepted: seq<bool>, k: nat)
    requires |lines| == |accepted| && k < |lines| && lines[k].Some? && !accepted[k]
    ensures Deliver(lines, accepted) == Deliver(lines[..k + 1], accepted[..k + 1])
    decreases k
  {
    if k > 0 {
      assert lines[1..][..k] == lines[..k + 1][1..];
      assert accepted[1..][..k] == accepted[..k + 1][1..];
      RefusalEnds(lines[1..], accepted[1..], k - 1);
    }
  }

  /** A skipped tick sends nothing, and a run of accepted lines sends each of them. */
  lemma {:induction false} DeliverAccepted(lines: seq<Option<string>>, accepted: seq<bool>)
    requires |lines| == |accepted| && forall k :: 0 <= k < |lines| ==> accepted[k]
    ensures Deliver(lines, accepted) == Somes(lines)
    decreases |lines|
  {
    if |lines| > 0 {
      DeliverAccepted(lines[1..], accepted[1..]);
    }
  }

  /** The values of the `Some` elements, in order. */
  function Somes<T>(s: seq<Option<T>>): seq<T>
    decreases |s|
  {
    if |s| == 0 then [] else (if s[0].Some? then [s[0].value] else []) + Somes(s[1..])
  }

  lemma DeliverStep(lines: seq<Option<string>>, accepted: seq<bool>, i: nat)
    requires |lines| == |accepted| && i < |lines|
    ensures var rest := Deliver(lines[i + 1..], accepted[i + 1..]);
      && (lines[i].None? ==> Deliver(lines[i..], accepted[i..]) == rest)
      && (lines[i].Some? && accepted[i] ==> Deliver(lines[i..], accepted[i..]) == [lines[i].value] + rest)
      && (lines[i].Some? && !accepted[i] ==> Deliver(lines[i..], accepted[i..]) == [lines[i].value])
  {
    assert lines[i..][1..] == lines[i + 1..] && accepted[i..][1..] == accepted[i + 1..];
  }

  /** What one more tick adds to the lines sent so far. */
  lemma RenderStep(lines: seq<Option<string>>, accepted: seq<bool>, i: nat, sent: seq<string>)
    requires |lines| == |accepted| && i < |lines|
    requires sent + Deliver(lines[i..], accepted[i..]) == Deliver(lines, accepted)
    ensures var rest := Deliver(lines[i + 1..], accepted[i + 1..]);
      && (lines[i].None? ==> sent + rest == Deliver(lines, accepted))
      && (lines[i].Some? && accepted[i] ==> (sent + [lines[i].value]) + rest == Deliver(lines, accepted))
      && (lines[i].Some? && !accepted[i] ==> sent + [lines[i].value] == Deliver(lines, accepted))
  {
    DeliverStep(lines, accepted, i);
    if lines[i].Some? && accepted[i] {
      Assoc(sent, [lines[i].value], Deliver(lines[i + 1..], accepted[i + 1..]));
    }
  }

  lemma Assoc<T>(a: seq<T>, b: seq<T>, c: seq<T>)
    ensures (a + b) + c == a + (b + c)
  {
  }

  /** The render loop over the ticks, stopping at the first refused line. */
  method RenderLoop(ticks: seq<Tick>) returns (sent: seq<string>)
    ensures sent == Sent(ticks)
  {
    ghost var lines := Lines(ticks);
    ghost var accepted := Accepted(ticks);
    sent := [];
    var i := 0;
    while i < |ticks|
      invariant i <= |ticks|
      invariant sent + Deliver(lines[i..], accepted[i..]) == Deliver(lines, accepted)
    {
      var line := Compose(ticks[i].texts);
      LinesAt(ticks, i);
      assert line == lines[i] && ticks[i].sinkOk == accepted[i];
      RenderStep(lines, accepted, i, sent);
      if line.Some? {
        sent := sent + [line.value];
        if !ticks[i].sinkOk {
          return;
        }
      }
      i := i + 1;
    }
    assert lines[i..] == [];
  }
}

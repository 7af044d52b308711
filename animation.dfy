/**
 * The frame-advance animator of src/emojis/animated_emoji.rs.
 *
 * Time is a natural number of milliseconds supplied by the caller (`now`), and
 * so is the per-frame period, which the source derives with floating-point
 * arithmetic as `1000 / (frames * speed * max_cycles_per_second)` truncated to
 * whole milliseconds (speed 0 makes it infinite, which the cast saturates to
 * `u64::MAX` milliseconds, so the animator holds).
 */
module Animation {
  import Arith

  /** The mutable part of an animator: current frame and time of the last advance. */
  datatype Position = Position(frame: nat, updatedAt: nat)

  /** One query of the animator: the time it happens and the period in force. */
  datatype Query = Query(now: nat, period: nat)

  /**
   * Whether a query at `now` advances the frame: `duration_since` succeeds
   * (the clock is not behind the timestamp) and the elapsed time is STRICTLY
   * longer than the period.
   */
  predicate Due(updatedAt: nat, now: nat, period: nat)
  {
    now >= updatedAt && now - updatedAt > period
  }

  /** The single-step policy: advance by exactly one frame (cyclically) and restamp, or hold. */
  function Step(p: Position, count: nat, q: Query): (r: Position)
    requires p.frame < count
    ensures r.frame < count
  {
    if Due(p.updatedAt, q.now, q.period) then Position((p.frame + 1) % count, q.now) else p
  }

  /** The position after a sequence of queries, oldest first. */
  function Run(p: Position, count: nat, qs: seq<Query>): (r: Position)
    requires p.frame < count
    ensures r.frame < count
    ensures r.updatedAt >= p.updatedAt
    decreases |qs|
  {
    if |qs| == 0 then p else Run(Step(p, count, qs[0]), count, qs[1..])
  }

  /** How many of the queries advance the frame. */
  function Advances(p: Position, count: nat, qs: seq<Query>): (n: nat)
    requires p.frame < count
    ensures n <= |qs|
    decreases |qs|
  {
    if |qs| == 0 then 0
    else
      var here := if Due(p.updatedAt, qs[0].now, qs[0].period) then 1 else 0;
      here + Advances(Step(p, count, qs[0]), count, qs[1..])
  }

  /** Every query moves the frame by at most one, so the frame moves by exactly the number of advances. */
  lemma {:induction false} RunFrame(p: Position, count: nat, qs: seq<Query>)
    requires p.frame < count
    ensures Run(p, count, qs).frame == (p.frame + Advances(p, count, qs)) % count
    decreases |qs|
  {
    if |qs| > 0 {
      var p' := Step(p, count, qs[0]);
      RunFrame(p', count, qs[1..]);
      var k := Advances(p', count, qs[1..]);
      if Due(p.updatedAt, qs[0].now, qs[0].period) {
        ModSucc(p.frame, k, count);
      }
    }
  }

  lemma ModSucc(f: nat, k: nat, count: nat)
    requires f < count
    ensures ((f + 1) % count + k) % count == (f + 1 + k) % count
  {
    Arith.ModAddLeft(f + 1, k, count);
  }

  /** Queries none of which is due leave frame and timestamp exactly as they were. */
  lemma {:induction false} RunHolds(p: Position, count: nat, qs: seq<Query>)
    requires p.frame < count
    requires forall k :: 0 <= k < |qs| ==> !Due(p.updatedAt, qs[k].now, qs[k].period)
    ensures Run(p, count, qs) == p && Advances(p, count, qs) == 0
    decreases |qs|
  {
    if |qs| > 0 {
      RunHolds(p, count, qs[1..]);
    }
  }

  /**
   * Queries that come strictly more than one period apart, the first one more
   * than a period after the last advance, each advance by exactly one frame,
   * and the timestamp ends at the last query.
   */
  lemma {:induction false} RunSteady(p: Position, count: nat, qs: seq<Query>)
    requires p.frame < count && |qs| > 0
    requires Due(p.updatedAt, qs[0].now, qs[0].period)
    requires forall k :: 0 < k < |qs| ==> Due(qs[k - 1].now, qs[k].now, qs[k].period)
    ensures Advances(p, count, qs) == |qs|
    ensures Run(p, count, qs) == Position((p.frame + |qs|) % count, qs[|qs| - 1].now)
    decreases |qs|
  {
    var p' := Step(p, count, qs[0]);
    if |qs| > 1 {
      assert Due(p'.updatedAt, qs[1..][0].now, qs[1..][0].period);
      RunSteady(p', count, qs[1..]);
      ModSucc(p.frame, |qs| - 1, count);
    }
  }

  /**
   * The object of animated_emoji.rs: the peak animation speed, the current
   * frame, the time of the last advance and the frame glyphs.
   */
  class AnimatedEmoji {
    var maxCyclesPerSecond: real
    var frame: nat
    var previousFrameUpdate: nat
    var frames: seq<char>

    /** The frame index is a valid index, or 0 for an animator built without frames. */
    predicate Valid()
      reads this
    {
      frame < |frames| || frame == 0
    }

    function Pos(): Position
      reads this
    {
      Position(frame, previousFrameUpdate)
    }

    /** `AnimatedEmoji::new`: frame 0, with the supplied timestamp and frames. */
    constructor (maxCyclesPerSecond: real, previousFrameUpdate: nat, frames: seq<char>)
      ensures Valid()
      ensures this.maxCyclesPerSecond == maxCyclesPerSecond && this.frame == 0
      ensures this.previousFrameUpdate == previousFrameUpdate && this.frames == frames
    {
      this.maxCyclesPerSecond := maxCyclesPerSecond;
      this.frame := 0;
      this.previousFrameUpdate := previousFrameUpdate;
      this.frames := frames;
    }

    /**
     * `get_frame`: `speed` must lie in [0, 1]; `period` is the per-frame
     * period derived from it. Indexing `frames` panics when there are none.
     */
    method GetFrame(speed: real, now: nat, period: nat) returns (glyph: char)
      requires Valid() && 0.0 <= speed <= 1.0 && |frames| > 0
      modifies this
      ensures Valid() && frames == old(frames) && maxCyclesPerSecond == old(maxCyclesPerSecond)
      ensures Pos() == Step(old(Pos()), |frames|, Query(now, period))
      ensures glyph == frames[frame]
    {
      if now >= previousFrameUpdate {
        var elapsed := now - previousFrameUpdate;
        if elapsed > period {
          previousFrameUpdate := now;
          frame := frame + 1;
          frame := frame % |frames|;
        }
      }
      glyph := frames[frame];
    }

    /** `reset`: back to frame 0, stamped with the epoch. */
    method Reset()
      modifies this
      ensures Valid() && frames == old(frames) && maxCyclesPerSecond == old(maxCyclesPerSecond)
      ensures Pos() == Position(0, 0)
    {
      frame := 0;
      previousFrameUpdate := 0;
    }
  }

  /**
   * After `reset` the timestamp is the epoch, so the very next query whose
   * clock reading exceeds the period already advances: it shows frame 1
   * (modulo the frame count), not frame 0.
   */
  lemma ResetThenQuery(count: nat, q: Query)
    requires count > 0 && q.now > q.period
    ensures Step(Position(0, 0), count, q) == Position(1 % count, q.now)
  {
  }

  /**
   * Five frames at a 20 ms period, queried once 100 ms after the last advance:
   * the single-step policy moves one frame, whatever the elapsed time.
   */
  lemma SingleStepOnLongGap(frame: nat, t: nat)
    requires frame < 5
    ensures Step(Position(frame, t), 5, Query(t + 100, 20)) == Position((frame + 1) % 5, t + 100)
  {
  }
}

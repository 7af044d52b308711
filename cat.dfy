/**
 * The running-cat animator of src/emojis/running_cat.rs and its builder.
 * Below a speed threshold the cat shows its sleep glyph; at or above it the
 * single-step rule of `Animation.Step` applies.
 */
module Cat {
  import opened Animation

  /**
   * `RunningCatBuilder`, `#[derive(Default)]`: every field starts at its
   * type's default (0.0, 0.0, an empty vector, '\0') and each setter asserts
   * its own condition before assigning its own field.
   */
  class RunningCatBuilder {
    var maxCyclesPerSecond: real
    var speedThreshold: real
    var frames: seq<char>
    var sleepFrame: char

    constructor ()
      ensures maxCyclesPerSecond == 0.0 && speedThreshold == 0.0 && frames == [] && sleepFrame == '\0'
    {
      maxCyclesPerSecond := 0.0;
      speedThreshold := 0.0;
      frames := [];
      sleepFrame := '\0';
    }

    method MaxCyclesPerSecond(value: real)
      requires value > 0.0
      modifies this
      ensures maxCyclesPerSecond == value
      ensures speedThreshold == old(speedThreshold) && frames == old(frames) && sleepFrame == old(sleepFrame)
    {
      maxCyclesPerSecond := value;
    }

    method SpeedThreshold(value: real)
      requires 0.0 <= value <= 1.0
      modifies this
      ensures speedThreshold == value
      ensures maxCyclesPerSecond == old(maxCyclesPerSecond) && frames == old(frames) && sleepFrame == old(sleepFrame)
    {
      speedThreshold := value;
    }

    method Frames(value: seq<char>)
      requires |value| > 0
      modifies this
      ensures frames == value
      ensures maxCyclesPerSecond == old(maxCyclesPerSecond) && speedThreshold == old(speedThreshold) && sleepFrame == old(sleepFrame)
    {
      frames := value;
    }

    method SleepFrame(value: char)
      modifies this
      ensures sleepFrame == value
      ensures maxCyclesPerSecond == old(maxCyclesPerSecond) && speedThreshold == old(speedThreshold) && frames == old(frames)
    {
      sleepFrame := value;
    }

    /** `build`: copies the four fields, frame 0, stamped with the epoch. Nothing is validated here. */
    method Build() returns (cat: RunningCat)
      ensures fresh(cat) && cat.Valid()
      ensures cat.maxCyclesPerSecond == maxCyclesPerSecond && cat.speedThreshold == speedThreshold
      ensures cat.frames == frames && cat.sleepFrame == sleepFrame
      ensures cat.Pos() == Position(0, 0)
    {
      cat := new RunningCat(maxCyclesPerSecond, speedThreshold, frames, sleepFrame);
    }
  }

  class RunningCat {
    var maxCyclesPerSecond: real
    var speedThreshold: real
    var frame: nat
    var previousFrameUpdate: nat
    var frames: seq<char>
    var sleepFrame: char

    predicate Valid()
      reads this
    {
      frame < |frames| || frame == 0
    }

    function Pos(): Position
      reads this
    {
      Position(frame, previousFrameUpdate)
    }

    constructor (maxCyclesPerSecond: real, speedThreshold: real, frames: seq<char>, sleepFrame: char)
      ensures Valid() && Pos() == Position(0, 0)
      ensures this.maxCyclesPerSecond == maxCyclesPerSecond && this.speedThreshold == speedThreshold
      ensures this.frames == frames && this.sleepFrame == sleepFrame
    {
      this.maxCyclesPerSecond := maxCyclesPerSecond;
      this.speedThreshold := speedThreshold;
      this.frames := frames;
      this.sleepFrame := sleepFrame;
      this.frame := 0;
      this.previousFrameUpdate := 0;
    }

    /**
     * `get_frame`: `speed` must lie in [0, 1]. Below the threshold it returns
     * the sleep glyph and changes nothing; otherwise it applies the
     * single-step rule (indexing `frames`, which panics when there are none).
     */
    method GetFrame(speed: real, now: nat, period: nat) returns (glyph: char)
      requires Valid() && 0.0 <= speed <= 1.0
      requires speed < speedThreshold || |frames| > 0
      modifies this
      ensures Valid()
      ensures maxCyclesPerSecond == old(maxCyclesPerSecond) && speedThreshold == old(speedThreshold)
      ensures frames == old(frames) && sleepFrame == old(sleepFrame)
      ensures speed < speedThreshold ==> glyph == sleepFrame && Pos() == old(Pos())
      ensures speed >= speedThreshold ==>
        Pos() == Step(old(Pos()), |frames|, Query(now, period)) && glyph == frames[frame]
    {
      if speed < speedThreshold {
        return sleepFrame;
      }
      if now >= previousFrameUpdate {
        var elapsed := now - previousFrameUpdate;
        if elapsed > period {
          previousFrameUpdate := now;
          frame := frame + 1;
          frame := frame % |frames|;
        }
      }
      glyph := frames[frame];
    }
  }
}

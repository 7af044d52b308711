/**
 * The typestate builder of src/emojis/animated_emoji_builder.rs. Each setter
 * consumes the builder and returns a new one; the two required fields are
 * `Option`s here, and `build` is callable only once both are set (the
 * compile-time typestate becomes a precondition). Frequencies are `f64` in the
 * source and reals here.
 */
module EmojiBuilder {
  import opened Wrappers

  datatype Builder = Builder(maxFrequency: Option<real>, minFrequency: real, frames: Option<seq<char>>)

  /** What `build` hands to the animator's constructor: no previous-update timestamp yet. */
  datatype EmojiConfig = EmojiConfig(maxFrequency: real, minFrequency: real, previousUpdate: Option<nat>, frames: seq<char>)

  /** What the setters' assertions guarantee of a builder: whatever required field is set is valid. */
  predicate WellFormed(b: Builder)
  {
    && (b.maxFrequency.Some? ==> b.maxFrequency.value > 0.0)
    && (b.frames.Some? ==> |b.frames.value| > 0)
  }

  /** `Default::default()`: minimum frequency 0, neither required field set. */
  function Default(): (b: Builder)
    ensures WellFormed(b)
    ensures b.maxFrequency.None? && b.frames.None? && b.minFrequency == 0.0
  {
    Builder(None, 0.0, None)
  }

  /** `max_frequency`: asserts the value is positive; the other fields carry over. */
  function MaxFrequency(b: Builder, maxFrequency: real): (r: Builder)
    requires maxFrequency > 0.0
    ensures WellFormed(b) ==> WellFormed(r)
    ensures r.maxFrequency == Some(maxFrequency)
    ensures r.minFrequency == b.minFrequency && r.frames == b.frames
  {
    Builder(Some(maxFrequency), b.minFrequency, b.frames)
  }

  /** `frames`: asserts the slice is non-empty; the other fields carry over. */
  function Frames(b: Builder, frames: seq<char>): (r: Builder)
    requires |frames| > 0
    ensures WellFormed(b) ==> WellFormed(r)
    ensures r.frames == Some(frames)
    ensures r.maxFrequency == b.maxFrequency && r.minFrequency == b.minFrequency
  {
    Builder(b.maxFrequency, b.minFrequency, Some(frames))
  }

  /**
   * `min_frequency`: no check at all, neither of sign nor against the maximum,
   * and the builder stays well-formed whatever the value.
   */
  function MinFrequency(b: Builder, minFrequency: real): (r: Builder)
    ensures WellFormed(b) ==> WellFormed(r)
    ensures r.minFrequency == minFrequency
    ensures r.maxFrequency == b.maxFrequency && r.frames == b.frames
  {
    b.(minFrequency := minFrequency)
  }

  /** `build`: the configured values, with no previous-update timestamp. */
  function Build(b: Builder): (c: EmojiConfig)
    requires b.maxFrequency.Some? && b.frames.Some?
    ensures WellFormed(b) ==> c.maxFrequency > 0.0 && |c.frames| > 0
    ensures c.maxFrequency == b.maxFrequency.value && c.minFrequency == b.minFrequency
    ensures c.frames == b.frames.value && c.previousUpdate == None
  {
    EmojiConfig(b.maxFrequency.value, b.minFrequency, None, b.frames.value)
  }

  /** The order of the two required setters does not matter. */
  lemma SettersCommute(b: Builder, maxFrequency: real, frames: seq<char>)
    requires maxFrequency > 0.0 && |frames| > 0
    ensures MaxFrequency(Frames(b, frames), maxFrequency) == Frames(MaxFrequency(b, maxFrequency), frames)
  {
  }

  /**
   * The last call of each setter wins: setting the minimum twice keeps only
   * the second value, and any minimum, even above the maximum, builds.
   */
  lemma MinFrequencyLastWins(b: Builder, first: real, second: real)
    ensures MinFrequency(MinFrequency(b, first), second) == MinFrequency(b, second)
  {
  }

  /** A full chain from the default builder yields exactly the configured values and no timestamp. */
  lemma BuildCarriesValues(maxFrequency: real, minFrequency: real, frames: seq<char>)
    requires maxFrequency > 0.0 && |frames| > 0
    ensures Build(MinFrequency(MaxFrequency(Frames(Default(), frames), maxFrequency), minFrequency))
         == EmojiConfig(maxFrequency, minFrequency, None, frames)
  {
  }
}

# barstatus in Dafny

barstatus builds the line of text a dwm-style bar shows, once per tick. It
holds seven metrics: network throughput, CPU load with an animated cat,
Bluetooth charge, keyboard layout, pending package updates, battery and date.
Each metric keeps a cached value that a background task refreshes on its own
timeout. On every tick the render loop writes each metric's display text into
a fixed 256-byte buffer, separating the texts with " | ". It cuts the result to
93 bytes, drops the tick if the cut splits a UTF-8 character, trims the
trailing separators and hands the line to the bar.

This project models that core and proves properties of it.

- `StatusLine` (statusline.dfy) covers the render tick of `src/main.rs`. It has
  a `Cursor` class over a 256-byte `array`, the per-metric write with its
  conditional separator, the 93-byte cut, the UTF-8 check, the trim of the
  trailing separators, and the render loop, which leaves at the first line the
  bar refuses (where the program then panics).
- `ReadLine` (read_line.dfy) covers `read_line_from_path::<N>` of
  `src/read_line.rs`. The fill loop works on an N-byte `array`, and the model
  includes its `memrchr` for the last newline and the three error kinds.
- `Net` (net.dfy) covers `src/metrics/net.rs`:
  - `numfmt`, as a `while` loop and as a specification function;
  - the `filter_map`/`fold` over the interfaces' counter files, in wrapping
    `u64` arithmetic;
  - the rate update with its guard;
  - the `NetMetric` object;
  - the display line.
- `Cpu` (cpu.dfy) covers `src/metrics/cpu.rs`:
  - parsing the `cpu` line of /proc/stat;
  - the load percentage, with saturating and wrapping `u64` arithmetic;
  - the sampling loop of the background thread;
  - the choice between the sleeping and the running cat;
  - the display text.
- `Animation` (animation.dfy) covers `src/emojis/animated_emoji.rs`: the
  single-step frame animator.
- `EmojiBuilder` (emoji_builder.dfy) covers `src/emojis/animated_emoji_builder.rs`:
  its typestate builder.
- `Cat` (cat.dfy) covers `src/emojis/running_cat.rs`: the running cat and its
  builder.
- `Updates` (updates.dfy) covers `src/metrics/update.rs`: the async revision of
  the updates metric.
- `UpdatesChannel` (updates_channel.dfy) covers `src/metrics/update.channels.rs`:
  the thread-and-channel revision of the updates metric.
- `Battery` (battery.dfy) covers `src/metrics/battery.rs`.
- `XkbLayout` (xkblayout.dfy) covers `src/metrics/xkblayout.rs`.

Supporting modules model the pieces of the Rust standard library that these
files rely on:

- `Utf8` (utf8.dfy) is UTF-8 as section 4 of RFC 3629 defines it: the check
  that `std::str::from_utf8` makes, encoding, and decoding.
- `Text` (text.dfy) covers decimal formatting, `parse::<uN>`, Unicode white
  space, `trim`, `split_whitespace`, `lines().count()`, `contains`,
  `strip_suffix` and `{:>2}` padding.
- `Arith` (arith.dfy) holds the `u64` range and saturating subtraction.
- `Buffer` (buffer.dfy) holds `copy_from_slice` into an array.

Time is a natural number of milliseconds on one clock, passed in by the
caller. Each command's output and each file's contents are parameters too.

Behaviours of the code a reader may not expect:

- After `reset` the animator's timestamp is the epoch. The next query is
  therefore already due, and it shows frame 1, not frame 0
  (`Animation.ResetThenQuery`).
- The tick does not pad or align the metrics. It cuts the buffer at 93 bytes
  and skips the tick when the cut falls inside a multi-byte character
  (`StatusLine.LineSkipped`).
- `src/metrics/cpu.rs` calls `next_frame`, which belongs to a revision of the
  animator that is not part of this model. Its calls are modelled with the
  `get_frame` of `src/emojis/animated_emoji.rs`.

## Model

| member | source | states |
|---|---|---|
| Arith.SatSub | src/metrics/cpu.rs:95-97 | saturating subtraction: the exact difference when it is non-negative, 0 otherwise |
| Text.Decimal | src/metrics/update.rs:76-80 | formatting with `{}` yields a non-empty string of digits with no leading zero, one digit exactly below 10 |
| Text.DecimalValue | src/metrics/cpu.rs:118-122 | the digits of a formatted number denote that number |
| Text.ParseUnsigned | src/metrics/cpu.rs:84 | `parse::<uN>` succeeds exactly when what follows one optional leading '+' is a non-empty run of digits whose value is at most the type's maximum, and then gives that value |
| Text.ParseDecimal | src/metrics/net.rs:121 | parsing inverts decimal formatting for every value that fits the type |
| Text.Trim | src/metrics/battery.rs:38 | `trim` gives the piece of the string between a leading and a trailing run of white space, a piece that neither starts nor ends with white space; a string without outer white space is unchanged |
| Text.SplitWhitespace | src/metrics/cpu.rs:81-84 | `split_whitespace` yields non-empty whitespace-free pieces which, in order and with runs of white space around them (non-empty between two pieces), make up the string |
| Text.SplitSeparated | src/metrics/cpu.rs:81-84 | the pieces are determined by the string: any layout of it as pieces and white-space runs gives exactly the pieces `split_whitespace` yields |
| Text.SplitTwo | src/metrics/update.channels.rs:80-81 | two whitespace-free tokens joined by one space split back into the two |
| Text.PadLeft | src/metrics/cpu.rs:119 | `{:>w}` right-aligns the text in a field of at least w characters, padded with spaces on the left |
| Text.TrimPadLeft | src/metrics/cpu.rs:119 | trimming a padded number gives back its decimal form |
| Text.LineCountByTerminators | src/metrics/update.rs:53 | `lines().count()` is the number of newlines, plus one for a non-empty unterminated last line |
| Text.ContainsAt | src/metrics/update.rs:52 | `contains` holds exactly when the needle occurs at some offset |
| Text.StripSuffix | src/metrics/xkblayout.rs:35-36 | at most one trailing newline is removed, and only if there is one |
| Utf8.EncodeValid | src/main.rs:120 | every encoded string is well-formed UTF-8 |
| Utf8.DecodeEncode | src/read_line.rs:35 | `from_utf8` of an encoded string gives the string back |
| Utf8.EncodeDecode | src/main.rs:133 | decoding well-formed bytes loses nothing: re-encoding gives the same bytes |
| Utf8.EncodeConcat | src/main.rs:117-129 | the encoding of a concatenation is the concatenation of the encodings |
| Utf8.ValidConcat | src/main.rs:120-126 | joining two well-formed byte sequences gives a well-formed one |
| Buffer.CopyInto | src/read_line.rs:22 | copying into the array keeps the bytes before the offset, places the source right after them, and leaves the bytes after it unchanged |
| ReadLine.LastIndex | src/read_line.rs:23-24 | `memrchr`: the index of the last newline, with no newline after it; `None` only when there is none |
| ReadLine.Fill | src/read_line.rs:19-33 | the fill loop keeps what it read, never exceeds N bytes, and fails only with an I/O error |
| ReadLine.ReadLineOf | src/read_line.rs:14-42 | the reference definition of the whole function; it never fails with `Capacity`, and an unopenable file is an `Io` error |
| ReadLine.FillStops | src/read_line.rs:21-33 | the bytes kept are a prefix of the file that ends at end of file, at N bytes, or just before a newline (that this newline is the last one of its chunk is stated per pass by `FillStep`) |
| ReadLine.FillWithoutNewline | src/read_line.rs:21-33 | a file without newlines or errors yields its first N bytes, or all of them if there are fewer |
| ReadLine.FillStep | src/read_line.rs:22-32 | one pass: an empty read stops, a chunk with a newline stops just before its last newline, any other chunk is appended and the loop goes on |
| ReadLine.FillAfterRead | src/read_line.rs:22-32 | the same pass in terms of the bytes read and the `memrchr` result |
| ReadLine.ReadChunk | src/read_line.rs:22-24 | one read copies as much of the chunk as fits after what was read before and finds its last newline |
| ReadLine.ReadStep | src/read_line.rs:22-32 | one loop body on the array agrees with the fill specification, both when it stops and when it continues |
| ReadLine.FillArray | src/read_line.rs:19-33 | the array loop computes exactly the fill specification |
| ReadLine.ReadLineFromPath | src/read_line.rs:14-42 | the whole function: opening, filling, the UTF-8 check and the bounded copy, as its specification says |
| ReadLine.ReadLineOutcome | src/read_line.rs:17-41 | `Io` exactly for an unopenable file or a failed read, `Utf8` exactly for ill-formed bytes, `Capacity` never; a returned line is a prefix of the file of at most N bytes |
| Animation.Step | src/emojis/animated_emoji.rs:36-42 | one query keeps the frame index inside the frame count |
| Animation.Run | src/emojis/animated_emoji.rs:30-45 | a run of queries keeps the frame index valid, and the timestamp never goes back |
| Animation.Advances | src/emojis/animated_emoji.rs:37-41 | at most one advance per query |
| Animation.RunFrame | src/emojis/animated_emoji.rs:36-42 | the frame moves by exactly the number of advancing queries, modulo the frame count |
| Animation.RunHolds | src/emojis/animated_emoji.rs:36-37 | queries none of which is due leave frame and timestamp unchanged |
| Animation.RunSteady | src/emojis/animated_emoji.rs:36-42 | queries more than one period apart each advance one frame, and the timestamp ends at the last query |
| Animation.SingleStepOnLongGap | src/emojis/animated_emoji.rs:37-40 | a gap of many periods still advances only one frame |
| Animation.ResetThenQuery | src/emojis/animated_emoji.rs:47-50 | after `reset` the next query past one period shows frame 1, not 0 |
| Animation.AnimatedEmoji.constructor | src/emojis/animated_emoji.rs:13-24 | frame 0, with the given timestamp, speed and frames |
| Animation.AnimatedEmoji.GetFrame | src/emojis/animated_emoji.rs:30-45 | the new frame and timestamp are one step of the single-step rule, the glyph is the new frame's, and nothing else changes |
| Animation.AnimatedEmoji.Reset | src/emojis/animated_emoji.rs:47-50 | frame 0 and the epoch as timestamp; frames and speed unchanged |
| EmojiBuilder.Default | src/emojis/animated_emoji_builder.rs:17-21 | neither required field set, minimum frequency 0 |
| EmojiBuilder.MaxFrequency | src/emojis/animated_emoji_builder.rs:39-46 | only a positive maximum is accepted; it is set and the other fields carry over |
| EmojiBuilder.Frames | src/emojis/animated_emoji_builder.rs:63-70 | only a non-empty frame list is accepted; it is set and the other fields carry over |
| EmojiBuilder.MinFrequency | src/emojis/animated_emoji_builder.rs:74-77 | any minimum is accepted, unchecked; only it changes |
| EmojiBuilder.Build | src/emojis/animated_emoji_builder.rs:82-87 | callable once both required fields are set; passes the configured values on, with no timestamp |
| EmojiBuilder.SettersCommute | src/emojis/animated_emoji_builder.rs:39-70 | the two required setters commute |
| EmojiBuilder.MinFrequencyLastWins | src/emojis/animated_emoji_builder.rs:74-77 | the last minimum set wins |
| EmojiBuilder.BuildCarriesValues | src/emojis/animated_emoji_builder.rs:17-87 | a full chain from the default builds exactly the configured values |
| Cat.RunningCatBuilder.constructor | src/emojis/running_cat.rs:4-10 | the derived default: zero speeds, no frames, NUL sleep glyph |
| Cat.RunningCatBuilder.MaxCyclesPerSecond | src/emojis/running_cat.rs:23-27 | only a positive value is accepted; only that field changes |
| Cat.RunningCatBuilder.SpeedThreshold | src/emojis/running_cat.rs:28-32 | only a value in [0, 1] is accepted; only that field changes |
| Cat.RunningCatBuilder.Frames | src/emojis/running_cat.rs:33-37 | only a non-empty frame list is accepted; only that field changes |
| Cat.RunningCatBuilder.SleepFrame | src/emojis/running_cat.rs:38-41 | sets the sleep glyph; only that field changes |
| Cat.RunningCatBuilder.Build | src/emojis/running_cat.rs:13-22 | a new cat with the four configured fields, frame 0, stamped with the epoch, unvalidated |
| Cat.RunningCat.constructor | src/emojis/running_cat.rs:14-21 | frame 0 at the epoch, with the given fields |
| Cat.RunningCat.GetFrame | src/emojis/running_cat.rs:58-76 | below the threshold the sleep glyph, with nothing changed; otherwise one step of the single-step rule and the new frame's glyph |
| Cpu.Field | src/metrics/cpu.rs:84 | a field is the value `parse::<u64>` gives, and 0 when it does not parse |
| Cpu.ParseStat | src/metrics/cpu.rs:81-90 | fails (the `expect` panics) exactly when fewer than five fields follow the name; both sums fit `u64` |
| Cpu.StatOf | src/metrics/cpu.rs:86-93 | the same on the fields of the line |
| Cpu.DecimalFields | src/metrics/cpu.rs:84 | each counter's decimal field parses back to the counter |
| Cpu.StatOfFields | src/metrics/cpu.rs:86-93 | the total is the wrapped sum of the five counters, and idle the wrapped sum of idle and iowait |
| Cpu.ParseStatLine | src/metrics/cpu.rs:79-93 | whatever white space separates the fields (the kernel writes two spaces after "cpu") and whatever further counters and lines follow, the text read from /proc/stat gives the wrapped sums of the first five counters after the name |
| Cpu.Percentage | src/metrics/cpu.rs:95-101 | the load over an interval; an interval in which the total did not grow gives 0 (`checked_div` by zero) |
| Cpu.PercentageAtMost100 | src/metrics/cpu.rs:95-101 | the load is at most 100 even when `* 100` wraps, so the `u8` conversion never panics |
| Cpu.PercentageIsShare | src/metrics/cpu.rs:95-99 | without wrap the load is the non-idle share of the interval in percent, rounded down |
| Cpu.PercentageWhenStalled | src/metrics/cpu.rs:95-99 | counters that did not grow give load 0 (saturation, then `checked_div` by 0) |
| Cpu.SamplesAtMost100 | src/metrics/cpu.rs:78-107 | every value the sampler stores is at most 100 |
| Cpu.ReadSample | src/metrics/cpu.rs:79-90 | reading and parsing one line ends the thread on a read error or a short line, and otherwise gives the sample |
| Cpu.Updater | src/metrics/cpu.rs:70-110 | the loop stores, in order, the load of each interval, measured from the initial totals 1 and 1, and ends as its specification says |
| Cpu.CpuText | src/metrics/cpu.rs:118-122 | glyph, space, the usage padded to two columns, "% cpu" |
| Cpu.CpuTextUsage | src/metrics/cpu.rs:118-122 | the usage field of the text trims and parses back to the usage |
| Cpu.CpuMetric.constructor | src/metrics/cpu.rs:34-57 | usage 0, a five-frame running cat and a one-frame sleeping cat, both at frame 0, at five cycles per second |
| Cpu.CpuMetric.Store | src/metrics/cpu.rs:103 | the stored usage is the new percentage |
| Cpu.CpuMetric.GetEmoji | src/metrics/cpu.rs:59-68 | below 10% the running cat is reset and the sleeping cat stepped, otherwise the reverse; the glyph is the stepped cat's, and both animators keep their frames and five cycles per second |
| Cpu.CpuMetric.GetValue | src/metrics/cpu.rs:117-123 | the text of the chosen glyph and the usage, with the same animator updates; both animators keep their frames and five cycles per second |
| Net.Level | src/metrics/net.rs:40-44 | the fewest divisions by 1024 that leave at most 1024, never more than five |
| Net.Remainder | src/metrics/net.rs:41 | the fraction printed is below 100 |
| Net.Scale | src/metrics/net.rs:37-44 | the `while` loop computes the level, the scaled number and the remainder |
| Net.Numfmt | src/metrics/net.rs:36-52 | `numfmt` as written: it starts with a digit and ends with the unit of the chosen power |
| Net.NumfmtMethod | src/metrics/net.rs:36-52 | the loop followed by the formatting gives `numfmt` |
| Net.ScaledBounds | src/metrics/net.rs:40-44 | the integer part is the number in units of the chosen power, rounded down, at most 1024 below the top power and at least 1 after a division |
| Net.NumfmtSmall | src/metrics/net.rs:36-52 | up to 1024 bytes are printed as they are, with "B" |
| Net.NumfmtFraction | src/metrics/net.rs:47-51 | a decimal point appears exactly when the remainder is non-zero and the integer part is below 1000 |
| Net.Hundredths | src/metrics/net.rs:41-42 | integer part and remainder together are the value in hundredths of the unit, rounded down |
| Net.TwoDigits | src/metrics/net.rs:48 | two digits denoting the remainder, with a leading zero below 10 |
| Net.NumfmtPaddedValue | src/metrics/net.rs:47-48 | with the fraction padded, the printed digits denote the value in hundredths |
| Net.NumfmtDropsLeadingZero | src/metrics/net.rs:47-48 | as written, 1076 prints as "1.5KiB"; padded it prints "1.05KiB" |
| Net.ParseXfile | src/metrics/net.rs:117-122 | a counter file parses to a `u64`, or to nothing |
| Net.ParseXfileCounter | src/metrics/net.rs:117-122 | a decimal counter on a line of its own parses back to the counter |
| Net.Reading | src/metrics/net.rs:87 | an interface gives a reading exactly when both of its files parse, and the reading is the two parsed counters |
| Net.AccumulateIsFold | src/metrics/net.rs:85-88 | the fused `filter_map` and `fold` equal filtering first and folding afterwards |
| Net.SumInterfaces | src/metrics/net.rs:85-88 | the loop over the interfaces computes the totals |
| Net.FoldIsSum | src/metrics/net.rs:88 | the wrapping fold gives the plain sums modulo 2^64 |
| Net.TotalsAreSums | src/metrics/net.rs:85-88 | the totals are the sums over the readable interfaces, modulo 2^64 |
| Net.TotalsWithoutWrap | src/metrics/net.rs:85-88 | sums that fit `u64` are the totals exactly |
| Net.TotalsOfOne | src/metrics/net.rs:85-88 | one interface with decimal counter files totals exactly its two counters |
| Net.PerSecond | src/metrics/net.rs:99-100 | the rate is the counter growth per whole second, rounded down |
| Net.NetUpdate | src/metrics/net.rs:78-106 | the update rule: the rates change only when the timeout has passed and the guard holds, and the state is either unchanged or stamped with the later clock reading |
| Net.UpdateSkips | src/metrics/net.rs:79-83 | before the timeout an update changes nothing |
| Net.UpdateReplacesCounters | src/metrics/net.rs:103-105 | otherwise the counters become the new totals and the timestamp the later clock reading |
| Net.UpdateKeepsRates | src/metrics/net.rs:93-101 | when the guard fails the rates are kept |
| Net.UpdateRates | src/metrics/net.rs:93-101 | when it holds each rate is its counter's growth per whole second, rounded down |
| Net.UpdateExample | src/metrics/net.rs:78-106 | 2000 bytes of growth each way over 2 s give 1000 bytes per second each way |
| Net.NetMetric.constructor | src/metrics/net.rs:25-34 | everything zero, last update one timeout ago; only a clock at least one timeout old is accepted |
| Net.NetMetric.Update | src/metrics/net.rs:78-106 | the new state is the update rule applied to the totals of the interfaces |
| Net.NetMetric.Store | src/metrics/net.rs:90-105 | the state after the counters are read is the update rule's |
| Net.ArrowsMisdecoded | src/metrics/net.rs:110 | the literal's arrows are the UTF-8 bytes of the two arrow emoji read as Windows-1252 |
| Net.NetText | src/metrics/net.rs:108-114 | the corrected display: it starts with the down arrow and ends with "/s" |
| Net.NetTextAsWritten | src/metrics/net.rs:108-114 | the display as written: it starts with the four characters the literal holds for the down arrow and ends with "/s" |
| Net.NetTextAsWrittenArrows | src/metrics/net.rs:108-114 | as written, the display is the corrected layout with each arrow replaced by the Windows-1252 reading of its UTF-8 bytes, and `numfmt` unpadded |
| Net.NetTextAsWrittenFields | src/metrics/net.rs:108-114 | as written, the display splits into the download field and the upload field |
| Net.NetTextFields | src/metrics/net.rs:108-114 | the corrected display splits into the download field and the upload field |
| StatusLine.Order | src/main.rs:104-112 | the texts are written net, cpu, bluetooth, xkb, updates, battery, date |
| StatusLine.Written | src/main.rs:114-130 | the buffer holds at most 256 bytes |
| StatusLine.TrimSep | src/main.rs:137 | trimming leaves a prefix that does not end with the separator, and what it removes is a whole number of separators |
| StatusLine.Line | src/main.rs:132-137 | the line a tick sends, or none; a sent line never ends with the separator |
| StatusLine.WrittenIsJoin | src/main.rs:114-130 | the cursor writes each non-empty text followed by the separator, cut at 256 bytes |
| StatusLine.EmitJoin | src/main.rs:117-129 | one metric written onto the cut layout is the cut layout with that text added |
| StatusLine.EmptyTextWritesNothing | src/main.rs:124-128 | a metric showing nothing writes no separator either |
| StatusLine.JoinBytes | src/main.rs:120-126 | the layout of the texts' bytes is the bytes of the texts' layout |
| StatusLine.LineShape | src/main.rs:132-137 | a sent line is at most 93 bytes, is a prefix of the layout in bytes, and does not end with the separator |
| StatusLine.LineSkipped | src/main.rs:132-136 | a tick is skipped exactly when the 93-byte cut is not well-formed UTF-8 |
| StatusLine.LineWhenFits | src/main.rs:114-137 | a layout of at most 93 bytes is sent whole, with the trailing separators trimmed |
| StatusLine.Cursor.constructor | src/main.rs:102 | a cursor at position 0 over the buffer |
| StatusLine.Cursor.Write | src/main.rs:120 | the bytes that fit are appended; the rest is dropped |
| StatusLine.Cursor.WriteMetric | src/main.rs:117-129 | one text, then the separator if the cursor moved |
| StatusLine.WriteAll | src/main.rs:114-130 | writing every metric in turn leaves the buffer as its specification says |
| StatusLine.Compose | src/main.rs:101-137 | one tick composes exactly the specified line, or nothing |
| StatusLine.ComposeBar | src/main.rs:104-137 | the tick over the seven metrics in their order |
| StatusLine.Deliver | src/main.rs:140-143 | the lines handed to the bar over a run; at most one per tick |
| StatusLine.DeliverFrom | src/main.rs:140-143 | every line handed to the bar is one a tick composed |
| StatusLine.SentShape | src/main.rs:100-144 | every line sent over a run has the shape `LineShape` states |
| StatusLine.RefusalEnds | src/main.rs:140-143 | after the first refused line no later tick has an effect |
| StatusLine.DeliverAccepted | src/main.rs:133-143 | while the bar accepts, every composed line is sent, in order, and skipped ticks send nothing |
| StatusLine.RenderLoop | src/main.rs:100-144 | the loop sends exactly the specified lines |
| Updates.Check | src/metrics/update.rs:38-59 | a kernel flag or a non-zero count only after a successful run with UTF-8 output that contains "linux" or is non-empty |
| Updates.CheckCountsPackages | src/metrics/update.rs:50-55 | one package per line gives the package count, and the flag is whether "linux" occurs |
| Updates.CheckFailures | src/metrics/update.rs:44-50 | a failed spawn, a failed exit or non-UTF-8 output resets both cells |
| Updates.Show | src/metrics/update.rs:67-81 | nothing is shown exactly when the count is 0 |
| Updates.ShowReadsBack | src/metrics/update.rs:76-80 | the text splits into the marker and the count, which parses back |
| Updates.UpdatesMetric.constructor | src/metrics/update.rs:16-22 | no kernel update and count 0 |
| Updates.UpdatesMetric.Start | src/metrics/update.rs:35-64 | after the loop the cells hold what the last run gave |
| UpdatesChannel.Message | src/metrics/update.channels.rs:47-52 | the message a run sends: the flag is set exactly for a successful run whose output contains "linux", and the count is 0 exactly for a failed run or an empty output |
| UpdatesChannel.Sent | src/metrics/update.channels.rs:35-57 | at most one message per run |
| UpdatesChannel.SentAt | src/metrics/update.channels.rs:36-53 | the k-th message is the k-th run's, and no earlier run failed to spawn |
| UpdatesChannel.SentLength | src/metrics/update.channels.rs:41-45 | the thread stops exactly at the first spawn failure |
| UpdatesChannel.Updater | src/metrics/update.channels.rs:35-57 | the loop sends the specified messages and panics exactly when it stops early |
| UpdatesChannel.Format | src/metrics/update.channels.rs:80-81 | the refresh glyph, "!" exactly when the flag is set, then a space and the count |
| UpdatesChannel.FormatReadsBack | src/metrics/update.channels.rs:80-81 | the text splits into the marker and the count, which parses back |
| UpdatesChannel.Receive | src/metrics/update.channels.rs:67-82 | the cache changes only on a message with a non-zero count, to that message; the text is empty or the new cache's rendering |
| UpdatesChannel.ReceiveZero | src/metrics/update.channels.rs:69 | a count of 0 shows nothing and keeps the cache |
| UpdatesChannel.ReceiveThenEmpty | src/metrics/update.channels.rs:68-78 | another message replaces the cache, and an empty poll afterwards shows the same text |
| UpdatesChannel.EmptyShowsCache | src/metrics/update.channels.rs:72 | an empty channel shows the cache, "🔁 0" before any message |
| UpdatesChannel.DisconnectedShowsNothing | src/metrics/update.channels.rs:73 | a closed channel shows nothing and keeps the cache |
| UpdatesChannel.RunShown | src/metrics/update.channels.rs:47-53 | a failed or empty run is not shown; a successful one shows its line count |
| UpdatesChannel.UpdatesMetric.constructor | src/metrics/update.channels.rs:20-33 | an empty cache |
| UpdatesChannel.UpdatesMetric.GetValue | src/metrics/update.channels.rs:67-82 | new cache and text exactly as the receive rule says |
| Battery.StatusGlyph | src/metrics/battery.rs:32-36 | plug and up arrow when charging, battery and down arrow when discharging, the plain battery otherwise |
| Battery.BatteryText | src/metrics/battery.rs:29-42 | a text exactly when the capacity parses as a `u8` below the threshold, and then glyph, charge and "%" |
| Battery.BatteryFromSysfs | src/metrics/battery.rs:29-42 | with files as sysfs writes them the text is shown exactly below the threshold |
| Battery.BatteryOutOfRange | src/metrics/battery.rs:38 | a charge that is no `u8` shows nothing |
| XkbLayout.Refresh | src/metrics/xkblayout.rs:25-38 | a spawn error changes nothing; otherwise the timestamp moves; only UTF-8 output replaces the locale, minus one trailing newline |
| XkbLayout.Shown | src/metrics/xkblayout.rs:52 | the globe, a space and the locale |
| XkbLayout.Format | src/metrics/xkblayout.rs:48-53 | a fresh cache is shown as it is; a stale one is refreshed first, and a failed refresh is an error |
| XkbLayout.RefreshLine | src/metrics/xkblayout.rs:34-36 | a layout name on a line of its own is stored without the newline |
| XkbLayout.RefreshNoNewline | src/metrics/xkblayout.rs:35-36 | output without a trailing newline is stored whole |
| XkbLayout.RefreshInvalid | src/metrics/xkblayout.rs:32-34 | non-UTF-8 output moves only the timestamp, so the next refresh waits a full timeout |
| XkbLayout.RefreshThenCached | src/metrics/xkblayout.rs:48-53 | a refreshed layout is then served from the cache until the timeout passes |
| XkbLayout.InitialShowsGlobe | src/metrics/xkblayout.rs:17-23 | right after creation the metric shows the globe and an empty locale |
| XkbLayout.XkbLayoutMetric.constructor | src/metrics/xkblayout.rs:17-23 | an empty locale stamped with the creation time |
| XkbLayout.XkbLayoutMetric.Update | src/metrics/xkblayout.rs:25-38 | the new cells and the result are the refresh rule's |
| XkbLayout.XkbLayoutMetric.Fmt | src/metrics/xkblayout.rs:48-53 | the new cells and the text are the format rule's |

## Left out

- The tokio runtime is not modelled: interval streams, missed-tick behaviour, `merge!` and the polling of the background futures. Ticks and refreshes are sequences given to the model.
- Threads, atomics, `Drop`/`join` and the stop flags are not modelled. The cpu sampler and the update channel are modelled as sequences of runs, and the end of the sequence stands for the stop.
- The mpsc channel's queueing is not modelled; `try_recv` is an input.
- `xsetroot::set_on_bar` is reduced to whether the bar accepted the line.
- The Bluetooth, memory and date metrics, the `lib.rs` macro and `future_to_stream.rs` are not part of this model. Their texts are inputs to the tick.
- The per-frame period of the animators is an input in whole milliseconds. Its floating-point derivation from speed, frame count and frequency is left out.
- The frequencies (`f32`/`f64`) are reals that are stored and compared, never computed with.
- Real clocks are left out: instants are natural numbers of milliseconds given by the caller.
- The debug-build overflow panic of the `u64` sums in cpu.rs and net.rs is not modelled; the arithmetic wraps, as a release build does.
- The `ip`/`awk` listing of the interfaces and the opening of the sysfs and /proc files are left out. Each file's contents are inputs.
- The check in net.rs that both counter paths exist is left out, because the files are inputs.
- Logging is left out.
- Text.LineCountByTerminators: the `\r` that `lines()` strips from a line is not modelled, because it does not change the count.
- UpdatesChannel.Sent: the lossy UTF-8 decode before counting is not modelled. Lines and "linux" are counted on the raw bytes, which is the same because the decode never touches ASCII bytes.
- StatusLine.RenderLoop: the model ends the run after the first refused line, where the program leaves the loop with `break` and then panics at main.rs:146 (`unreachable!`). The panic itself is not modelled.
- XkbLayout.Format: a failed refresh (`None`) enters the tick's `Displays` as the empty text. This is what xkblayout.rs:49-50 gives: the error is returned before anything is written, the cursor does not move, and main.rs:120-122 only logs the error. This assumes `write_fmt` reports a formatter error as an `Err`, which is then logged; a standard library that panics when a `Display` impl fails without an I/O error would end the program there instead.
- Buffered reading with `BufReader::read_line` in battery.rs and net.rs is left out. Each file is given as the first line it delivers.

## Findings

| source | as written | input that shows it | evidently intended | confidence | as-written member | corrected member |
|---|---|---|---|---|---|---|
| src/metrics/net.rs:41-48 | the remainder in hundredths is printed with `{rem}`, without a leading zero | 1076 bytes (1.05 KiB) print as "1.5KiB" | `{rem:02}`, which prints "1.05KiB" | high, not executed | Net.NumfmtDropsLeadingZero | Net.NumfmtPaddedValue |
| src/metrics/net.rs:110 | the arrow literals hold four Windows-1252 characters each, the UTF-8 bytes of 🔽 and 🔼 misread | any rates: the line starts with U+00F0 U+0178 U+201D U+00BD | the two arrow emoji U+1F53D and U+1F53C | medium, not executed | Net.NetTextAsWrittenArrows | Net.NetTextFields |

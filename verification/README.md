# Subtitle narration timeline

A Dafny model of the subtitle-to-speech core of `bot.py`, a Telegram bot
that turns an SRT subtitle file into a single narrated audio track. The
core is the `srt_to_audio` loop and the four helpers it and the
transcription path use:

- `srt_time_to_ms` converts a timestamp to milliseconds.
- `estimate_seconds` estimates how long a text takes to speak.
- `preprocess_text` normalises cue text.
- `format_srt_time` renders seconds as an `HH:MM:SS,mmm` timestamp.

The loop walks the cues with an index `i`, a mutable cue list, a
`cursor` in milliseconds and an append-only track. Each iteration does
one of these things:

- skips a cue whose normalised text is empty;
- pads silence up to the cue's start;
- merges an over-long cue into its successor;
- synthesises the cue at a capped speed-up, trims the audio to the cue's
  slot and appends it.

Layout:

- `wrappers.dfy` (`Wrappers`): `Option`.
- `py_num.dfy` (`PyNum`): Python's `int()` on a float (truncation toward
  zero), `x % 1`, `min` and `max`, over exact reals.
- `srt_time.dfy` (`SrtTime`): timestamps, `srt_time_to_ms`,
  `format_srt_time`, and a reader for the canonical `HH:MM:SS,mmm` form.
  The reader is used only to state the formatter's round trip.
- `text_prep.dfy` (`TextPrep`): `preprocess_text`. This covers
  `str.replace` for the two sentence marks and `str.strip` with Python's
  whitespace set.
- `planner.dfy` (`Planner`): `estimate_seconds`, the speed-up rate, and
  the per-cue decision (skip, merge, speak, or fail).
- `timeline.dfy` (`Timeline`): one loop iteration as a pure step
  function, the loop invariant, and the loop itself as a method.

Speech synthesis and the text-shortening service are function
parameters:

- `synth(text, rate)` gives the length in milliseconds of the synthesised
  audio, for the voice chosen by the caller.
- `shorten(text, slotSeconds)` gives the shortened text. Any answer is
  allowed, which includes the service's fallback of returning the text
  unchanged.

Audio is represented by its pieces: `Silence(ms)` and
`Speech(index, text, rate, ms)`. Here `index` is the cue number the
source names its temporary file after.

Float arithmetic (`len/14`, `slot_ms/1000`, `* 1.5`, the rate formula and
`seconds % 1`) is modelled over exact reals.

The loop can end in an error. The model's synthesiser is a total
function: it always answers. Under that assumption, and depending on the
last cue, the outcome is:

- `Raised(DivisionByZero(i))` when the last cue has a zero-width slot and
  non-blank text. The rate formula divides by `slot_sec` (bot.py:147).
- `Raised(NegativeRate(i, rate))` when the last cue has a negative slot
  and non-blank text. Here the model stops early; see "Left out".

In the source, synthesis, decoding and export can also raise on any cue
(bot.py:150-157, 166). Those exceptions are not modelled; see "Left out".

A cue that is not the last is never spoken with a slot of zero or less:
its estimate always exceeds the slot at maximum speed-up, so it is
merged into its successor.

Besides the loop itself, the model gives a reference run over the
original cue list. `PlanAt` is the decision for cue `k` of the original
list, and `TextAt` is the text the cue holds when the loop reaches it,
given earlier merges. `TrackBefore` is the track those decisions build:
a skipped cue adds nothing, every other cue pads silence up to its
start, and a spoken cue then adds its speech. The loop is proved to
follow this run:

- it raises exactly when the last decision raises;
- an exported track is exactly the reference track, silences included;
- an exported track holds exactly the speech items the decisions call
  for, in cue order;
- a cue has speech in the track exactly when its decision is to speak.

## Model

| member | source | states |
|---|---|---|
| SrtTime.ToMs | bot.py:76-77 | A timestamp with non-negative fields converts to a non-negative number of milliseconds. |
| SrtTime.ToMsOrder | bot.py:76-77 | For in-range timestamps, the millisecond value is strictly monotone in the lexicographic order of (hours, minutes, seconds, milliseconds), and equal values mean equal timestamps. |
| PyNum.Trunc | bot.py:86-87 | Python's `int()` on a float: the floor for non-negative values, and within one of the value toward zero for negative ones. |
| PyNum.FracPart | bot.py:86 | `seconds % 1` is in [0, 1) and differs from `seconds` by an integer. |
| PyNum.Min | bot.py:147 | Python's `min`: at most both arguments and equal to one of them. |
| PyNum.Max | bot.py:130-132 | The cursor update: at least both arguments and equal to one of them. |
| SrtTime.SplitSeconds | bot.py:85-89 | For `seconds >= 0`, minutes and seconds are in [0,59], milliseconds in [0,999], and the fields add up to `floor(seconds*1000)` milliseconds. |
| SrtTime.WholeAndMillis | bot.py:86-87 | For `seconds >= 0`, the truncated whole seconds and the truncated milliseconds of the fractional part together give the time truncated to the millisecond. |
| SrtTime.SplitSecondsOfMs | bot.py:85-89 | Splitting the seconds value of an in-range timestamp gives that timestamp back, so converting to milliseconds and splitting are inverse over exact reals. |
| SrtTime.FormatInt | bot.py:90 | `{n:0W}` is at least `W` characters; for `n >= 0` all of them are digits, and for `n < 0` it starts with a minus sign. |
| SrtTime.FormatTwoDigits | bot.py:90 | `{n:02}` for 0 <= n < 100 is the two decimal digits of n. |
| SrtTime.FormatThreeDigits | bot.py:90 | `{n:03}` for 0 <= n < 1000 is the three decimal digits of n. |
| SrtTime.Render | bot.py:90 | The `HH:MM:SS,mmm` text is at least 12 characters long. |
| SrtTime.ParseRender | bot.py:90 | The rendering of an in-range timestamp with fewer than 100 hours is 12 characters long and reads back as the same timestamp. |
| SrtTime.RenderParse | bot.py:90 | Every string read as a timestamp is in range and is exactly the rendering of what was read. |
| SrtTime.FormatSrtTime | bot.py:85-90 | For 0 <= seconds < 360000, `format_srt_time` gives a 12-character timestamp that reads back as fields worth `floor(seconds*1000)` milliseconds. |
| SrtTime.TruncationLosesMillisecond | bot.py:86 | The double Python stores for 1.13 lies within half a millisecond of 1130 ms, yet formats as `00:00:01,129`. |
| SrtTime.RoundHalfEven | bot.py:86 | Python's `round`: within 0.5 of its argument, and even on a tie. |
| SrtTime.SplitMillis | bot.py:88-89 | A non-negative millisecond count split by `divmod` gives in-range fields worth exactly that count. |
| SrtTime.FormatSrtTimeRounded | bot.py:85-90 | With the millisecond count rounded, a time below 100 hours gives a 12-character timestamp that reads back as `round(seconds*1000)` milliseconds. |
| SrtTime.RoundedKeepsMillisecond | bot.py:85-90 | With rounding, every time within half a millisecond of a whole millisecond count formats as exactly that count. |
| SrtTime.RoundedRoundTrip | bot.py:85-90 | With rounding, formatting the seconds value of an in-range timestamp below 100 hours reads back as the same timestamp. |
| SrtTime.RoundingKeepsMillisecond | bot.py:85-90 | With rounding, the double for 1.13 formats as `00:00:01,130`. |
| Planner.EstimateSeconds | bot.py:79-80 | The estimate is at least 0.4 seconds. It equals `len/14` exactly when the text has at least 6 characters, and is exactly 0.4 below that. |
| Planner.EstimateMonotone | bot.py:79-80 | A longer text never gets a smaller estimate. |
| TextPrep.DropSpaceAfterInverse | bot.py:83 | Removing the space after each mark undoes the `replace` that inserted it. |
| TextPrep.SpaceAfterNonSpace | bot.py:83 | Inserting spaces after a mark leaves the non-whitespace characters unchanged. |
| TextPrep.SpaceAfterSpaced | bot.py:83 | After the insertion every mark is followed by a space, and a character that was already followed by one still is. |
| TextPrep.ExpansionSpaced | bot.py:83 | After both `replace` calls, every `။` and every `.` is followed by a space. |
| TextPrep.ExpandNonSpace | bot.py:83 | The two `replace` calls keep exactly the non-whitespace characters of the input, in order. |
| TextPrep.StripNonSpace | bot.py:83 | `strip` keeps exactly the non-whitespace characters, in order. |
| TextPrep.StripTrimmed | bot.py:83 | The result of `strip` is empty or neither starts nor ends with whitespace. |
| TextPrep.Preprocess | bot.py:82-83 | The normalised text neither starts nor ends with whitespace. It keeps exactly the non-whitespace characters of the input, in order. It is empty exactly when the input is all whitespace. Removing the space inserted after each `.` and `။` gives back the stripped input, so nothing else changes. |
| TextPrep.ExpandStripUndo | bot.py:83 | Removing the space after each `.` and then after each `။` in the normalised text gives back the stripped input. |
| TextPrep.ExpandFramed | bot.py:83 | The `replace` calls leave leading and trailing whitespace in place around the expansion of the text between. |
| TextPrep.DropSpaceAfterConcat | bot.py:83 | Removing the space after a mark distributes over a concatenation whose second part does not start with a space. |
| TextPrep.PreprocessMarksSpaced | bot.py:83 | In the normalised text, every `.` or `။` except a final one is followed by a space. |
| Planner.SpeedUpRate | bot.py:145-147 | The rate is 0 when the estimate fits the slot, and never above the cap of 50 percent. |
| Planner.ExcessPercent | bot.py:147 | For an estimate over a positive slot, `int((est/slot - 1)*100)` is the natural `n` for which the slot sped up by `n` percent is at most the estimate and sped up by `n+1` percent exceeds it. It is 0 exactly below 1.01 times the slot, and at least 50 beyond 1.5 times the slot. |
| Planner.RateOverSlot | bot.py:145-147 | For an estimate over a positive slot, the rate is that excess capped at 50. |
| Planner.SpeedUpRateExact | bot.py:145-147 | For a positive slot: the rate is in [0,50]; it is 0 exactly when the estimate is under 1.01 times the slot; below the cap, the slot sped up by `rate` percent falls short of the estimate by less than one percent; above 1.5 times the slot it is 50. For a negative slot it is at most -100. |
| Planner.PlanText | bot.py:134-147 | Every decision that carries text carries the candidate text: the text itself, or the service's answer when the text is over capacity. The cue merges exactly when a successor exists and the candidate is still over capacity. It is spoken exactly when the slot is positive and it does not merge. A zero slot and a negative slot are failures exactly for the last cue. Speech has the rate the estimate calls for, in [0,50], and fits at 1.5x unless the cue is last. |
| Planner.PlanCue | bot.py:124-147 | A cue is skipped exactly when its text is all whitespace. Otherwise the decision is the one made for its normalised text. |
| Planner.PlanTextIgnoresShorten | bot.py:136-138 | When the estimate fits the slot at 1.5x, the decision does not depend on the shortening service and speaks the text as it is. |
| Planner.ShortenOnlyWhenOverCapacity | bot.py:136-138 | The same, for raw cue text: a cue that fits at 1.5x is spoken unshortened, whatever the service would answer. |
| Timeline.Pad | bot.py:130-132 | Silence is appended only when the cue starts after the cursor. The cursor becomes the larger of the two and stays equal to the track length. |
| Timeline.Advance | bot.py:130-164 | Carrying out a decision moves to the next cue and keeps every start and end time. It raises exactly for the zero-slot and negative-slot decisions. Speech pads silence to the cue's start, then appends exactly one item: the decided text and rate, with the synthesised length cut to the slot. The cursor advances by that length, and the cue list is unchanged. A merge pads the same silence and sets the successor's text to the decided text, a space and its old text. |
| Timeline.Step | bot.py:117-164 | A blank cue is skipped with nothing else changed. A step raises exactly when the cue is the last, is not blank and has a slot of zero or less. The error is a division by zero exactly when the slot is zero. Otherwise `i` increases by one, times are kept, the track only grows and the cursor never decreases. |
| Timeline.StepSpeech | bot.py:133-164 | A step appends speech exactly when the cue is spoken: not blank, a positive slot, and a candidate text that fits at 1.5x or is the last cue's. The speech is one item after the padding silence: the candidate text, at the rate its estimate calls for, with the synthesised length cut to the slot. The cue list is left unchanged. Any other non-raising step adds no speech. |
| Timeline.StepMerge | bot.py:136-143 | A step rewrites the cue list exactly when the cue merges: not blank, a successor exists, and the candidate text is over capacity. The successor's text becomes the candidate text, a space and its old text; no other cue changes, and only silence is appended. |
| Timeline.StepRaises | bot.py:140-147 | A step raises exactly when the decision for its cue is a failure. |
| Timeline.StepCases | bot.py:126-164 | A step on a non-blank cue merges it, speaks it or raises; it never both merges and speaks, and neither of those raises. |
| Timeline.PadKeepsInv | bot.py:130-132 | Padding keeps the track invariant. For sorted cues it brings the cursor exactly to the cue's start. |
| Timeline.SpeakValid | bot.py:145-163 | The item appended for a spoken cue has a positive slot, a rate in [0,50], a text that fits unless the cue is last, and a length cut to its slot. |
| Timeline.SpeakKeepsInv | bot.py:149-164 | Appending trimmed speech keeps the loop invariant. |
| Timeline.MergeKeepsInv | bot.py:140-143 | Merging keeps the loop invariant. |
| Timeline.PadReadyForNext | bot.py:130-143 | After padding for a cue, the track invariant holds and the track has no speech for this cue or any later one, so the loop can move on without speaking it. |
| Timeline.StepKeepsInv | bot.py:117-164 | Every iteration keeps the loop invariant. The invariant is: the cursor equals the track length; the track is well formed; speech is in cue order; and for sorted cues, speech is aligned and the cursor is at most the previous cue's end and at most the next cue's start. |
| Timeline.WellFormedTrackAll | bot.py:149-163 | In a well-formed track, every silence is non-empty. Every speech item has a positive slot, a rate in [0,50] and a length cut to its slot. Cues are spoken in strictly increasing order. |
| Timeline.AlignedAll | bot.py:130-163 | In an aligned track, each speech item starts exactly at its cue's start time. |
| Timeline.Plans | bot.py:118-164 | The reference run has one decision per cue, each the decision for the text the cue holds when reached, and every decision to speak has a positive slot. |
| Timeline.SpeechAt | bot.py:149-162 | The reference speech for a spoken cue is a speech item of that cue. |
| Timeline.PlanOfFollows | bot.py:125-147 | When the cue holds the text the reference run predicts, the loop's decision is the reference decision: it speaks and merges exactly when the reference does, with the same text and the same speech item. |
| Timeline.StepFollowsTexts | bot.py:140-143 | After a step, the next cue holds the text the reference run predicts, and later cues are untouched. |
| Timeline.StepFollowsSpeech | bot.py:149-164 | After a step, the track's speech items are exactly the reference speech for the cues up to this one. |
| Timeline.StepFollowsPlans | bot.py:118-164 | A step raises exactly when the reference decision for its cue raises, and otherwise keeps the loop in step with the reference run. |
| Timeline.PadTrack | bot.py:130-132 | Padding a track up to a start time only appends, leaves the speech items unchanged, and makes the track end at the later of its old end and that time. |
| Timeline.TrackSpeech | bot.py:118-164 | The speech items of the reference track are exactly the reference speech, in cue order. |
| Timeline.AdvanceFollowsTrack | bot.py:130-164 | Carrying out a non-raising, non-skip decision on the reference track for the cues before it gives the reference track for the cues up to it. |
| Timeline.StepFollowsTrack | bot.py:118-164 | After a step, the track is exactly the reference track for the cues up to this one, silences included. |
| Timeline.StepKeepsRun | bot.py:117-164 | A step keeps the loop invariant and agreement with the reference run. It raises exactly when the reference decision raises, and then only on the last cue, with a slot of zero or less, as a division by zero exactly for a zero slot. |
| Timeline.FinishedRun | bot.py:118-166 | After the last cue, no decision raised, and the track is exactly the reference track. It is valid, in cue order, aligned for sorted cues, and has speech for exactly the cues decided to be spoken. |
| Timeline.SpokenBeforeItems | bot.py:118-164 | Every item of the reference speech is the decided speech of a cue already passed, in strictly increasing cue order. |
| Timeline.SpokenBeforeCovers | bot.py:118-164 | A cue has an item in the reference speech exactly when it has been passed and its decision is to speak. |
| Timeline.DecidedSpeech | bot.py:118-164 | A track whose speech items are the reference speech has speech for exactly the cues decided to be spoken. |
| Timeline.ExportedSpeech | bot.py:118-166 | The same, for the decisions of the reference run. |
| Timeline.SpeechItemsSpoken | bot.py:162 | A cue has speech in a track exactly when it has an item among the track's speech items. |
| Timeline.SrtToAudio | bot.py:112-166 | The loop raises exactly when the reference decision for the last cue raises: a last cue with a slot of zero or less, a division by zero exactly for a zero slot. An exported track is exactly the reference track, silences included. Its speech items are exactly the reference speech, so a cue is spoken exactly when its decision is to speak. Every item is valid and cues are spoken in order. For sorted, non-overlapping cues, each speech item starts at its cue's start and the track ends no later than the last cue's end. |

## Left out

- Telegram handlers and bot wiring (bot.py:206-305) are user interface and
  session plumbing.
- The keep-alive HTTP server and its thread (bot.py:66-73) are network
  I/O and concurrency.
- Synthesis (`edge_tts`), audio decoding and export (`pydub`), temporary
  files and `os.remove` (bot.py:150-157, 166) are foreign audio I/O.
  Synthesis is the `synth` parameter; the voice is fixed inside it.
- Timeline.SrtToAudio: exceptions from synthesis, decoding or export
  (bot.py:150-157, 166) are not modelled. `synth` is total, so the model
  says nothing about a run in which the synthesiser fails on some cue.
  Unlike `shorten_text` (bot.py:105-109), the loop does not catch such
  an exception, so in the source any cue can end the run with it.
- The Gemini shortener `shorten_text` (bot.py:93-109) is a foreign call.
  It is the `shorten` parameter and may return any text, which includes
  the original text returned on an exception.
- The Whisper transcription path (bot.py:169-203) runs ffmpeg and a speech
  model. Only its `format_srt_time` helper is modelled.
- SRT file parsing (`pysrt.open`) is a library call. The loop takes the
  parsed cue list.
- IEEE float rounding: all float arithmetic is over exact reals. Results
  may differ from Python's at exact boundaries, e.g. the 1.5x capacity
  test or the truncated rate.
- SrtTime.SplitSecondsOfMs: the round trip holds over exact reals only.
  In Python, `ms / 1000` is rarely exact. When the stored double lies
  just below the intended value, truncation loses a millisecond: 1.13
  gives `,129`, 2.01 gives `,009`, 1.001 gives `,000`. See "Findings".
- SrtTime.FormatSrtTime: it reads back as the time truncated to the
  millisecond. It does not promise the nearest millisecond; see
  "Findings".
- Timeline.SrtToAudio: a last cue with a negative slot and non-blank text
  stops with `NegativeRate`. The source instead asks the synthesiser for a
  `+-N%` rate and then slices `seg[:slot_ms]` with a negative bound, which
  keeps all but the last `|slot_ms|` milliseconds. That behaviour depends
  on the foreign synthesiser accepting a malformed rate, so it is not
  modelled.
- Timeline.ValidSpeech: the loop invariant does not record the rate
  formula for each spoken item. That per-step fact is stated by
  Timeline.StepSpeech instead.
- SrtTime.FormatSrtTime: the round trip is limited to fewer than 100 hours.
  Past that, the hours field renders with more than two digits and the
  canonical reader does not apply.

## Findings

| source | as written | input that shows it | evidently intended | confidence | as-written member | corrected member |
|---|---|---|---|---|---|---|
| bot.py:86 | `ms = int((seconds % 1) * 1000)` truncates the millisecond field | `1.13`, stored as a double just below 1.13, formats as `00:00:01,129` | the nearest millisecond, `round(seconds * 1000)` split by `divmod`, giving `00:00:01,130` | medium; not executed | SrtTime.TruncationLosesMillisecond | SrtTime.FormatSrtTimeRounded |

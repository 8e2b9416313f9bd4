/** `srt_to_audio`: the loop that turns a cue list into one audio track by
    padding silence up to each cue and appending its synthesised speech.
    Speech synthesis and text shortening are external services and enter
    as function parameters; audio is represented by its segment lengths. */
module Timeline {
  import opened PyNum
  import opened SrtTime
  import opened TextPrep
  import opened Planner

  /** One subtitle entry as parsed from the input file. */
  datatype Cue = Cue(start: Timestamp, end: Timestamp, text: string)

  function StartMs(c: Cue): int {
    ToMs(c.start)
  }

  function EndMs(c: Cue): int {
    ToMs(c.end)
  }

  /** The time budget of a cue, `end_ms - start_ms`. */
  function SlotMs(c: Cue): int {
    EndMs(c) - StartMs(c)
  }

  /** A piece of the output track: silence, or the speech synthesised for
      cue `index` (the index the source names its temporary file after). */
  datatype Item =
    | Silence(ms: nat)
    | Speech(index: nat, text: string, rate: int, ms: nat)

  /** Duration of a track in milliseconds. */
  function Length(audio: seq<Item>): nat {
    if audio == [] then 0 else Length(audio[..|audio| - 1]) + audio[|audio| - 1].ms
  }

  /** Why the loop stopped without exporting. */
  datatype Failure =
    | DivisionByZero(index: nat)          // last cue has a zero-width slot
    | NegativeRate(index: nat, rate: int) // last cue ends before it starts

  /** The result of the whole job: the exported track or the error raised. */
  datatype Outcome = Exported(audio: seq<Item>) | Raised(failure: Failure)

  /** The loop's state between iterations: the (mutable) cue list, the cue
      index, the cursor in milliseconds and the track built so far. */
  datatype Job = Job(subs: seq<Cue>, i: nat, cursor: nat, audio: seq<Item>)

  datatype StepResult = Next(job: Job) | Raise(failure: Failure)

  /** Start and end times of every cue agree. */
  predicate SameTimes(a: seq<Cue>, b: seq<Cue>) {
    && |a| == |b|
    && forall k :: 0 <= k < |a| ==> a[k].start == b[k].start && a[k].end == b[k].end
  }

  lemma LengthAppend(audio: seq<Item>, x: Item)
    ensures Length(audio + [x]) == Length(audio) + x.ms
  {
    assert (audio + [x])[..|audio|] == audio;
  }

  /** Pads silence up to `startMs` when the cursor is behind it. */
  function Pad(job: Job, startMs: int): (r: Job)
    ensures r.subs == job.subs && r.i == job.i
    ensures r.cursor == Max(job.cursor, startMs)
    ensures r.audio == job.audio || (startMs > job.cursor && r.audio == job.audio + [Silence(startMs - job.cursor)])
    ensures job.cursor == Length(job.audio) ==> r.cursor == Length(r.audio)
  {
    if startMs > job.cursor then
      LengthAppend(job.audio, Silence(startMs - job.cursor));
      job.(cursor := startMs, audio := job.audio + [Silence(startMs - job.cursor)])
    else job
  }

  /** Carries out a decision for cue `job.i`: pad silence up to the cue's
      start, then merge into the successor, append the trimmed speech, or
      raise. */
  function Advance(job: Job, plan: Plan, synth: (string, int) -> nat): (r: StepResult)
    requires job.i < |job.subs| && !plan.Skip?
    requires plan.Merge? ==> job.i + 1 < |job.subs|
    requires plan.Speak? ==> SlotMs(job.subs[job.i]) > 0
    ensures r.Next? ==> r.job.i == job.i + 1 && SameTimes(r.job.subs, job.subs)
    ensures r.Next? ==> job.audio <= r.job.audio && job.cursor <= r.job.cursor
    ensures r.Raise? <==> plan.ZeroSlot? || plan.NegativeSlot?
    ensures plan.Speak? ==>
      var padded := Pad(job, StartMs(job.subs[job.i]));
      var ms := Min(synth(plan.text, plan.rate), SlotMs(job.subs[job.i]));
      && r.Next? && r.job.subs == job.subs
      && r.job.audio == padded.audio + [Speech(job.i, plan.text, plan.rate, ms)]
      && r.job.cursor == padded.cursor + ms
    ensures plan.Merge? ==>
      var padded := Pad(job, StartMs(job.subs[job.i]));
      var next := job.subs[job.i + 1];
      && r.Next? && r.job.audio == padded.audio && r.job.cursor == padded.cursor
      && r.job.subs == job.subs[job.i + 1 := next.(text := plan.text + " " + next.text)]
  {
    var cue := job.subs[job.i];
    var padded := Pad(job, StartMs(cue));
    match plan
    case Merge(text) =>
      var next := job.subs[job.i + 1];
      Next(padded.(subs := job.subs[job.i + 1 := next.(text := text + " " + next.text)], i := job.i + 1))
    case Speak(text, rate) =>
      var len := Min(synth(text, rate), SlotMs(cue));
      Next(padded.(i := job.i + 1, cursor := padded.cursor + len,
                   audio := padded.audio + [Speech(job.i, text, rate, len)]))
    case ZeroSlot => Raise(DivisionByZero(job.i))
    case NegativeSlot(_, rate) => Raise(NegativeRate(job.i, rate))
  }

  /** The plan the loop body makes for cue `job.i`. */
  function PlanOf(job: Job, shorten: (string, real) -> string): Plan
    requires job.i < |job.subs|
  {
    PlanCue(job.subs[job.i].text, SlotMs(job.subs[job.i]), job.i + 1 < |job.subs|, shorten)
  }

  /** One iteration of the loop body on cue `job.i`: a blank cue is
      skipped, any other is planned and the plan carried out. */
  function Step(job: Job, synth: (string, int) -> nat, shorten: (string, real) -> string): (r: StepResult)
    requires job.i < |job.subs|
    ensures r.Next? ==> r.job.i == job.i + 1 && SameTimes(r.job.subs, job.subs)
    ensures r.Next? ==> job.audio <= r.job.audio && job.cursor <= r.job.cursor
    ensures AllSpace(job.subs[job.i].text) ==> r == Next(job.(i := job.i + 1))
    ensures r.Raise? <==>
      !AllSpace(job.subs[job.i].text) && job.i + 1 == |job.subs| && SlotMs(job.subs[job.i]) <= 0
    ensures r.Raise? ==> r.failure.index == job.i
    ensures r.Raise? ==> (r.failure.DivisionByZero? <==> SlotMs(job.subs[job.i]) == 0)
  {
    var plan := PlanOf(job, shorten);
    if plan.Skip? then Next(job.(i := job.i + 1)) else Advance(job, plan, synth)
  }

  /** The candidate text of cue `job.i`: its normalised text, shortened
      when over capacity. */
  function CandidateOf(job: Job, shorten: (string, real) -> string): string
    requires job.i < |job.subs|
  {
    Candidate(Preprocess(job.subs[job.i].text), SlotMs(job.subs[job.i]), shorten)
  }

  /** Cue `job.i` is spoken: its text is not blank, its slot is positive,
      and its candidate text fits at maximum speed-up or it is the last. */
  predicate Speaks(job: Job, shorten: (string, real) -> string)
    requires job.i < |job.subs|
  {
    var cue := job.subs[job.i];
    && !AllSpace(cue.text)
    && SlotMs(cue) > 0
    && !(job.i + 1 < |job.subs| && OverCapacity(CandidateOf(job, shorten), SlotMs(cue)))
  }

  /** Cue `job.i` is merged into its successor: its text is not blank, a
      successor exists, and its candidate text is over capacity. */
  predicate Merges(job: Job, shorten: (string, real) -> string)
    requires job.i < |job.subs|
  {
    var cue := job.subs[job.i];
    && !AllSpace(cue.text)
    && job.i + 1 < |job.subs|
    && OverCapacity(CandidateOf(job, shorten), SlotMs(cue))
  }

  /** The speech item for a spoken cue `job.i`: the candidate text at the
      speed-up rate its estimate calls for, cut to the slot. */
  function SpeechFor(job: Job, synth: (string, int) -> nat, shorten: (string, real) -> string): Item
    requires job.i < |job.subs| && SlotMs(job.subs[job.i]) > 0
  {
    var slot := SlotMs(job.subs[job.i]);
    var text := CandidateOf(job, shorten);
    var rate := SpeedUpRate(EstimateSeconds(text), SlotSeconds(slot));
    Speech(job.i, text, rate, Min(synth(text, rate), slot))
  }

  /** The speech items of a track, in order. */
  function SpeechItems(audio: seq<Item>): seq<Item>
    decreases |audio|
  {
    if audio == [] then []
    else SpeechItems(Front(audio)) + (if Last(audio).Speech? then [Last(audio)] else [])
  }

  lemma SpeechItemsAppend(audio: seq<Item>, x: Item)
    ensures SpeechItems(audio + [x]) == SpeechItems(audio) + (if x.Speech? then [x] else [])
  {
    AppendParts(audio, x);
  }

  lemma PadSpeechItems(job: Job, startMs: int)
    ensures SpeechItems(Pad(job, startMs).audio) == SpeechItems(job.audio)
  {
    if startMs > job.cursor {
      SpeechItemsAppend(job.audio, Silence(startMs - job.cursor));
    }
  }

  /** A step speaks cue `i` exactly when the cue is spoken: it then pads
      silence up to the cue's start and appends the cue's speech item,
      leaving the cue list alone; any other step that does not raise adds
      no speech. */
  lemma StepSpeech(job: Job, synth: (string, int) -> nat, shorten: (string, real) -> string)
    requires job.i < |job.subs|
    ensures Speaks(job, shorten) ==>
      var r := Step(job, synth, shorten);
      && r.Next? && r.job.subs == job.subs
      && r.job.audio == Pad(job, StartMs(job.subs[job.i])).audio + [SpeechFor(job, synth, shorten)]
      && SpeechItems(r.job.audio) == SpeechItems(job.audio) + [SpeechFor(job, synth, shorten)]
    ensures !Speaks(job, shorten) && Step(job, synth, shorten).Next? ==>
      SpeechItems(Step(job, synth, shorten).job.audio) == SpeechItems(job.audio)
  {
    var cue := job.subs[job.i];
    var padded := Pad(job, StartMs(cue));
    PadSpeechItems(job, StartMs(cue));
    if !AllSpace(cue.text) {
      var plan := PlanOf(job, shorten);
      if plan.Speak? {
        SpeechItemsAppend(padded.audio, SpeechFor(job, synth, shorten));
      }
    }
  }

  /** A step rewrites the cue list exactly when cue `i` is merged: the
      successor's text becomes cue `i`'s candidate text, a space and its
      old text, no other cue changes, and only the silence up to cue
      `i`'s start is appended. */
  lemma StepMerge(job: Job, synth: (string, int) -> nat, shorten: (string, real) -> string)
    requires job.i < |job.subs|
    ensures Merges(job, shorten) ==>
      var r := Step(job, synth, shorten);
      var next := job.subs[job.i + 1];
      && r.Next?
      && r.job.subs == job.subs[job.i + 1 := next.(text := CandidateOf(job, shorten) + " " + next.text)]
      && r.job.audio == Pad(job, StartMs(job.subs[job.i])).audio
    ensures !Merges(job, shorten) && Step(job, synth, shorten).Next? ==>
      Step(job, synth, shorten).job.subs == job.subs
  {
  }

  /** Every step on a non-blank cue does exactly one of three things: it
      merges the cue, speaks it, or raises. */
  lemma StepCases(job: Job, synth: (string, int) -> nat, shorten: (string, real) -> string)
    requires job.i < |job.subs|
    ensures !AllSpace(job.subs[job.i].text) ==>
      Merges(job, shorten) || Speaks(job, shorten) || Step(job, synth, shorten).Raise?
    ensures !(Merges(job, shorten) && Speaks(job, shorten))
    ensures Merges(job, shorten) || Speaks(job, shorten) ==> Step(job, synth, shorten).Next?
  {
    StepSpeech(job, synth, shorten);
    StepMerge(job, synth, shorten);
  }

  // ---------------------------------------------------------------------
  // What the loop keeps true
  // ---------------------------------------------------------------------

  /** A speech item for cue `x.index` of `subs`: its slot is positive, its
      rate within the cap, its text fits the slot at maximum speed-up
      unless it is the last cue, and its length is the synthesised length
      cut to the slot. */
  predicate ValidSpeech(subs: seq<Cue>, x: Item, synth: (string, int) -> nat)
    requires x.Speech?
  {
    && x.index < |subs|
    && SlotMs(subs[x.index]) > 0
    && 0 <= x.rate <= MaxRate
    && (x.index + 1 < |subs| ==>
          EstimateSeconds(x.text) <= SlotSeconds(SlotMs(subs[x.index])) * MaxSpeed)
    && x.ms == Min(synth(x.text, x.rate), SlotMs(subs[x.index]))
    && x.ms <= SlotMs(subs[x.index])
  }

  function Last(audio: seq<Item>): Item
    requires audio != []
  {
    audio[|audio| - 1]
  }

  function Front(audio: seq<Item>): seq<Item>
    requires audio != []
  {
    audio[..|audio| - 1]
  }

  /** All speech in the track belongs to cues before `i`. */
  predicate SpeechBefore(audio: seq<Item>, i: nat)
    decreases |audio|
  {
    audio == [] ||
    (SpeechBefore(Front(audio), i) && (Last(audio).Speech? ==> Last(audio).index < i))
  }

  /** Built item by item: every silence is a real gap and every speech
      item is valid and belongs to a later cue than all speech before it. */
  predicate WellFormedTrack(subs: seq<Cue>, audio: seq<Item>, synth: (string, int) -> nat)
    decreases |audio|
  {
    audio == [] ||
    (&& WellFormedTrack(subs, Front(audio), synth)
     && (Last(audio).Silence? ==> Last(audio).ms > 0)
     && (Last(audio).Speech? ==>
           ValidSpeech(subs, Last(audio), synth) && SpeechBefore(Front(audio), Last(audio).index)))
  }

  /** Built item by item: each speech item begins where its cue starts. */
  predicate Aligned(subs: seq<Cue>, audio: seq<Item>)
    decreases |audio|
  {
    audio == [] ||
    (&& Aligned(subs, Front(audio))
     && (Last(audio).Speech? ==>
           Last(audio).index < |subs| && Length(Front(audio)) == StartMs(subs[Last(audio).index])))
  }

  /** Cues with non-negative, in-order, non-overlapping time ranges. */
  predicate Sorted(subs: seq<Cue>) {
    && (forall k :: 0 <= k < |subs| ==> 0 <= StartMs(subs[k]) <= EndMs(subs[k]))
    && (forall k :: 0 <= k < |subs| - 1 ==> EndMs(subs[k]) <= StartMs(subs[k + 1]))
  }

  /** The part of the loop invariant that also holds halfway through an
      iteration: times never change, the cursor is the track's length, the
      track is well formed and, for sorted cues, aligned. */
  predicate TrackInv(subs0: seq<Cue>, job: Job, synth: (string, int) -> nat) {
    && SameTimes(job.subs, subs0)
    && job.i <= |subs0|
    && job.cursor == Length(job.audio)
    && WellFormedTrack(subs0, job.audio, synth)
    && SpeechBefore(job.audio, job.i)
    && (Sorted(subs0) ==> Aligned(subs0, job.audio))
  }

  /** For sorted cues the cursor never runs past the next cue's start nor
      the previous cue's end. */
  predicate CursorInv(subs0: seq<Cue>, job: Job) {
    Sorted(subs0) ==>
      && (job.i < |subs0| ==> job.cursor <= StartMs(subs0[job.i]))
      && (job.i > 0 && job.i - 1 < |subs0| ==> job.cursor <= EndMs(subs0[job.i - 1]))
  }

  /** The loop invariant of `srt_to_audio` against the original cue list. */
  predicate LoopInv(subs0: seq<Cue>, job: Job, synth: (string, int) -> nat) {
    TrackInv(subs0, job, synth) && CursorInv(subs0, job)
  }

  lemma {:induction false} SpeechBeforeMono(audio: seq<Item>, i: nat, j: nat)
    requires SpeechBefore(audio, i) && i <= j
    ensures SpeechBefore(audio, j)
    decreases |audio|
  {
    if audio != [] {
      SpeechBeforeMono(Front(audio), i, j);
    }
  }

  lemma AppendParts(audio: seq<Item>, x: Item)
    ensures audio + [x] != [] && Front(audio + [x]) == audio && Last(audio + [x]) == x
  {
    assert (audio + [x])[..|audio|] == audio;
  }

  /** Appending an item that is valid where it lands keeps the track
      invariant, with the next cue index. */
  lemma TrackAppend(subs: seq<Cue>, audio: seq<Item>, x: Item, synth: (string, int) -> nat, i: nat)
    requires WellFormedTrack(subs, audio, synth) && SpeechBefore(audio, i)
    requires x.Silence? ==> x.ms > 0
    requires x.Speech? ==> ValidSpeech(subs, x, synth) && x.index == i
    ensures WellFormedTrack(subs, audio + [x], synth)
    ensures SpeechBefore(audio + [x], i + 1)
    ensures Length(audio + [x]) == Length(audio) + x.ms
  {
    AppendParts(audio, x);
    SpeechBeforeMono(audio, i, i + 1);
  }

  lemma AlignedAppend(subs: seq<Cue>, audio: seq<Item>, x: Item)
    requires Aligned(subs, audio)
    requires x.Speech? ==> x.index < |subs| && Length(audio) == StartMs(subs[x.index])
    ensures Aligned(subs, audio + [x])
  {
    AppendParts(audio, x);
  }

  /** A plan the loop can carry out for cue `i` of `subs`: speech has a
      positive slot and a rate within the cap, and fits at maximum
      speed-up unless the cue is the last; merging needs a successor. */
  predicate Feasible(subs: seq<Cue>, i: nat, plan: Plan)
    requires i < |subs|
  {
    && !plan.Skip?
    && (plan.Merge? ==> i + 1 < |subs|)
    && (plan.Speak? ==>
          && SlotMs(subs[i]) > 0
          && 0 <= plan.rate <= MaxRate
          && (i + 1 < |subs| ==>
                EstimateSeconds(plan.text) <= SlotSeconds(SlotMs(subs[i])) * MaxSpeed))
  }

  /** Padding keeps the track invariant and, for sorted cues, brings the
      cursor exactly to the cue's start. */
  lemma PadKeepsInv(subs0: seq<Cue>, job: Job, synth: (string, int) -> nat)
    requires LoopInv(subs0, job, synth) && job.i < |job.subs|
    ensures TrackInv(subs0, Pad(job, StartMs(job.subs[job.i])), synth)
    ensures Sorted(subs0) ==> Pad(job, StartMs(job.subs[job.i])).cursor == StartMs(subs0[job.i])
  {
    var startMs := StartMs(job.subs[job.i]);
    assert startMs == StartMs(subs0[job.i]);
    if startMs > job.cursor {
      var x := Silence(startMs - job.cursor);
      TrackAppend(subs0, job.audio, x, synth, job.i);
      SpeechBeforeMono(job.audio, job.i, job.i + 1);
      if Sorted(subs0) {
        AlignedAppend(subs0, job.audio, x);
      }
    }
  }

  /** Appending the speech of a feasible plan after padding keeps the track
      invariant. */
  lemma SpeakKeepsTrack(subs0: seq<Cue>, job: Job, plan: Plan, synth: (string, int) -> nat)
    requires LoopInv(subs0, job, synth) && job.i < |job.subs|
    requires Feasible(job.subs, job.i, plan) && plan.Speak?
    ensures TrackInv(subs0, Advance(job, plan, synth).job, synth)
  {
    var i := job.i;
    var cue := job.subs[i];
    assert SlotMs(cue) == SlotMs(subs0[i]);
    PadKeepsInv(subs0, job, synth);
    var padded := Pad(job, StartMs(cue));
    var len := Min(synth(plan.text, plan.rate), SlotMs(cue));
    var x := Speech(i, plan.text, plan.rate, len);
    SpeakValid(subs0, job, plan, synth);
    TrackAppend(subs0, padded.audio, x, synth, i);
    if Sorted(subs0) {
      AlignedAppend(subs0, padded.audio, x);
    }
  }

  /** The speech item of a feasible plan is valid for its cue. */
  lemma SpeakValid(subs0: seq<Cue>, job: Job, plan: Plan, synth: (string, int) -> nat)
    requires SameTimes(job.subs, subs0) && job.i < |job.subs|
    requires Feasible(job.subs, job.i, plan) && plan.Speak?
    ensures ValidSpeech(subs0, Speech(job.i, plan.text, plan.rate,
                                      Min(synth(plan.text, plan.rate), SlotMs(job.subs[job.i]))), synth)
  {
    assert SlotMs(job.subs[job.i]) == SlotMs(subs0[job.i]);
  }

  /** Appending the speech of a feasible plan after padding keeps the
      cursor within the cue's slot. */
  lemma SpeakKeepsCursor(subs0: seq<Cue>, job: Job, plan: Plan, synth: (string, int) -> nat)
    requires LoopInv(subs0, job, synth) && job.i < |job.subs|
    requires Feasible(job.subs, job.i, plan) && plan.Speak?
    ensures CursorInv(subs0, Advance(job, plan, synth).job)
  {
    var i := job.i;
    var cue := job.subs[i];
    assert SlotMs(cue) == SlotMs(subs0[i]) && EndMs(cue) == EndMs(subs0[i]);
    PadKeepsInv(subs0, job, synth);
  }

  /** Appending the speech of a feasible plan after padding keeps the loop
      invariant. */
  lemma SpeakKeepsInv(subs0: seq<Cue>, job: Job, plan: Plan, synth: (string, int) -> nat)
    requires LoopInv(subs0, job, synth) && job.i < |job.subs|
    requires Feasible(job.subs, job.i, plan) && plan.Speak?
    ensures LoopInv(subs0, Advance(job, plan, synth).job, synth)
  {
    SpeakKeepsTrack(subs0, job, plan, synth);
    SpeakKeepsCursor(subs0, job, plan, synth);
  }

  /** Merging after padding keeps the loop invariant. */
  lemma MergeKeepsInv(subs0: seq<Cue>, job: Job, plan: Plan, synth: (string, int) -> nat)
    requires LoopInv(subs0, job, synth) && job.i < |job.subs|
    requires Feasible(job.subs, job.i, plan) && plan.Merge?
    ensures LoopInv(subs0, Advance(job, plan, synth).job, synth)
  {
    PadReadyForNext(subs0, job, synth);
  }

  /** After padding for cue `i`, the track holds no speech for cue `i` or
      later, so the loop may move on to cue `i + 1` without adding any. */
  lemma PadReadyForNext(subs0: seq<Cue>, job: Job, synth: (string, int) -> nat)
    requires LoopInv(subs0, job, synth) && job.i < |job.subs|
    ensures TrackInv(subs0, Pad(job, StartMs(job.subs[job.i])), synth)
    ensures SpeechBefore(Pad(job, StartMs(job.subs[job.i])).audio, job.i + 1)
    ensures Sorted(subs0) ==> Pad(job, StartMs(job.subs[job.i])).cursor == StartMs(subs0[job.i])
  {
    PadKeepsInv(subs0, job, synth);
    var padded := Pad(job, StartMs(job.subs[job.i]));
    SpeechBeforeMono(padded.audio, job.i, job.i + 1);
  }

  /** One iteration keeps the loop invariant. */
  lemma StepKeepsInv(subs0: seq<Cue>, job: Job, synth: (string, int) -> nat,
                     shorten: (string, real) -> string)
    requires LoopInv(subs0, job, synth) && job.i < |job.subs|
    ensures Step(job, synth, shorten).Next? ==> LoopInv(subs0, Step(job, synth, shorten).job, synth)
  {
    var plan := PlanOf(job, shorten);
    if plan.Speak? {
      SpeakKeepsInv(subs0, job, plan, synth);
    } else if plan.Merge? {
      MergeKeepsInv(subs0, job, plan, synth);
    } else if plan.Skip? {
      SpeechBeforeMono(job.audio, job.i, job.i + 1);
    }
  }

  // ---------------------------------------------------------------------
  // The track, item by item
  // ---------------------------------------------------------------------

  /** Every silence in the track is a real gap and every speech item is
      valid for its cue. */
  predicate ItemsValid(subs: seq<Cue>, audio: seq<Item>, synth: (string, int) -> nat) {
    forall p :: 0 <= p < |audio| ==>
      (audio[p].Silence? ==> audio[p].ms > 0)
      && (audio[p].Speech? ==> ValidSpeech(subs, audio[p], synth))
  }

  /** Speech items appear in strictly increasing cue order, so no cue is
      spoken twice. */
  predicate SpeechInCueOrder(audio: seq<Item>) {
    forall p, q :: 0 <= p < q < |audio| && audio[p].Speech? && audio[q].Speech? ==>
      audio[p].index < audio[q].index
  }

  /** Each speech item starts, in the track, at its cue's start time. */
  predicate SpeechAtCueStart(subs: seq<Cue>, audio: seq<Item>) {
    forall p :: 0 <= p < |audio| && audio[p].Speech? ==>
      audio[p].index < |subs| && Length(audio[..p]) == StartMs(subs[audio[p].index])
  }

  lemma {:induction false} SpeechBeforeAll(audio: seq<Item>, i: nat)
    requires SpeechBefore(audio, i)
    ensures forall p :: 0 <= p < |audio| && audio[p].Speech? ==> audio[p].index < i
    decreases |audio|
  {
    if audio != [] {
      SpeechBeforeAll(Front(audio), i);
      assert forall p :: 0 <= p < |audio| - 1 ==> audio[p] == Front(audio)[p];
    }
  }

  /** The item-by-item well-formedness of a track, read position by
      position. */
  lemma {:induction false} WellFormedTrackAll(subs: seq<Cue>, audio: seq<Item>, synth: (string, int) -> nat)
    requires WellFormedTrack(subs, audio, synth)
    ensures ItemsValid(subs, audio, synth)
    ensures SpeechInCueOrder(audio)
    decreases |audio|
  {
    if audio != [] {
      var front := Front(audio);
      WellFormedTrackAll(subs, front, synth);
      assert forall p :: 0 <= p < |front| ==> audio[p] == front[p];
      if Last(audio).Speech? {
        SpeechBeforeAll(front, Last(audio).index);
      }
    }
  }

  /** Item-by-item alignment, read position by position. */
  lemma {:induction false} AlignedAll(subs: seq<Cue>, audio: seq<Item>)
    requires Aligned(subs, audio)
    ensures SpeechAtCueStart(subs, audio)
    decreases |audio|
  {
    if audio != [] {
      var front := Front(audio);
      AlignedAll(subs, front);
      forall p | 0 <= p < |front|
        ensures audio[p] == front[p] && audio[..p] == front[..p]
      {
      }
    }
  }

  // ---------------------------------------------------------------------
  // The decisions of a whole run, cue by cue
  // ---------------------------------------------------------------------

  /** The text cue `k` holds when the loop reaches it: its own text,
      prefixed by its predecessor's text and a space when the predecessor
      was merged into it. */
  function TextAt(subs0: seq<Cue>, k: nat, shorten: (string, real) -> string): string
    requires k < |subs0|
    decreases k, 0
  {
    if k == 0 then subs0[0].text
    else
      var prev := PlanAt(subs0, k - 1, shorten);
      if prev.Merge? then prev.text + " " + subs0[k].text else subs0[k].text
  }

  /** The decision the loop makes for cue `k` of the original cue list. */
  function PlanAt(subs0: seq<Cue>, k: nat, shorten: (string, real) -> string): Plan
    requires k < |subs0|
    decreases k, 1
  {
    PlanCue(TextAt(subs0, k, shorten), SlotMs(subs0[k]), k + 1 < |subs0|, shorten)
  }

  predicate Raising(p: Plan) {
    p.ZeroSlot? || p.NegativeSlot?
  }

  /** One decision per cue, and every decision to speak has a positive
      slot. */
  predicate SlotsFit(subs0: seq<Cue>, plans: seq<Plan>) {
    && |plans| == |subs0|
    && forall k :: 0 <= k < |plans| && plans[k].Speak? ==> SlotMs(subs0[k]) > 0
  }

  /** The decisions of the whole run, one per cue. */
  function Plans(subs0: seq<Cue>, shorten: (string, real) -> string): (plans: seq<Plan>)
    ensures |plans| == |subs0|
    ensures forall k :: 0 <= k < |subs0| ==> plans[k] == PlanAt(subs0, k, shorten)
    ensures SlotsFit(subs0, plans)
  {
    seq(|subs0|, k requires 0 <= k < |subs0| => PlanAt(subs0, k, shorten))
  }

  /** The speech item the loop appends for cue `k` when its decision is to
      speak. */
  function SpeechAt(subs0: seq<Cue>, plans: seq<Plan>, k: nat, synth: (string, int) -> nat): (x: Item)
    requires SlotsFit(subs0, plans) && k < |plans| && plans[k].Speak?
    ensures x.Speech? && x.index == k
  {
    var p := plans[k];
    Speech(k, p.text, p.rate, Min(synth(p.text, p.rate), SlotMs(subs0[k])))
  }

  /** The speech the loop appends for the first `i` cues, in order. */
  function SpokenBefore(subs0: seq<Cue>, plans: seq<Plan>, i: nat, synth: (string, int) -> nat): seq<Item>
    requires SlotsFit(subs0, plans) && i <= |plans|
  {
    if i == 0 then []
    else
      SpokenBefore(subs0, plans, i - 1, synth)
      + (if plans[i - 1].Speak? then [SpeechAt(subs0, plans, i - 1, synth)] else [])
  }

  /** A track padded with silence up to `startMs` when it is shorter: it
      then ends exactly there, and nothing before its end changes. */
  function PadTrack(audio: seq<Item>, startMs: int): (r: seq<Item>)
    ensures audio <= r && Length(r) == Max(Length(audio), startMs)
    ensures SpeechItems(r) == SpeechItems(audio)
  {
    if startMs > Length(audio) then
      LengthAppend(audio, Silence(startMs - Length(audio)));
      SpeechItemsAppend(audio, Silence(startMs - Length(audio)));
      audio + [Silence(startMs - Length(audio))]
    else audio
  }

  /** The track the loop has built after the first `i` cues: a skipped cue
      adds nothing; any other cue pads silence up to its start and, when
      its decision is to speak, appends its speech. */
  function TrackBefore(subs0: seq<Cue>, plans: seq<Plan>, i: nat, synth: (string, int) -> nat): seq<Item>
    requires SlotsFit(subs0, plans) && i <= |plans|
  {
    if i == 0 then []
    else
      var prev := TrackBefore(subs0, plans, i - 1, synth);
      var k := i - 1;
      if plans[k].Skip? then prev
      else
        var padded := PadTrack(prev, StartMs(subs0[k]));
        if plans[k].Speak? then padded + [SpeechAt(subs0, plans, k, synth)] else padded
  }

  /** The speech items of the reference track are the speech the run
      decides, in cue order. */
  lemma {:induction false} TrackSpeech(subs0: seq<Cue>, plans: seq<Plan>, i: nat, synth: (string, int) -> nat)
    requires SlotsFit(subs0, plans) && i <= |plans|
    ensures SpeechItems(TrackBefore(subs0, plans, i, synth)) == SpokenBefore(subs0, plans, i, synth)
  {
    if i > 0 {
      TrackSpeech(subs0, plans, i - 1, synth);
      var k := i - 1;
      if !plans[k].Skip? {
        var padded := PadTrack(TrackBefore(subs0, plans, k, synth), StartMs(subs0[k]));
        if plans[k].Speak? {
          SpeechItemsAppend(padded, SpeechAt(subs0, plans, k, synth));
        }
      }
    }
  }

  /** Some speech item of `audio` belongs to cue `k`. */
  predicate SpokenIn(audio: seq<Item>, k: nat) {
    exists p :: 0 <= p < |audio| && audio[p].Speech? && audio[p].index == k
  }

  /** The loop's state agrees with the run's decisions: cue `i` holds the
      text `TextAt` predicts, later cues are untouched, the track holds
      exactly the speech decided for the cues before `i` and is the
      reference track for them, silences included, and no earlier
      decision raised. */
  predicate FollowsPlans(subs0: seq<Cue>, job: Job, synth: (string, int) -> nat,
                         shorten: (string, real) -> string) {
    && |job.subs| == |subs0| && job.i <= |subs0|
    && (job.i < |subs0| ==> job.subs[job.i].text == TextAt(subs0, job.i, shorten))
    && (forall k :: job.i < k < |subs0| ==> job.subs[k].text == subs0[k].text)
    && SpeechItems(job.audio) == SpokenBefore(subs0, Plans(subs0, shorten), job.i, synth)
    && job.audio == TrackBefore(subs0, Plans(subs0, shorten), job.i, synth)
    && (0 < job.i ==> !Raising(PlanAt(subs0, job.i - 1, shorten)))
  }

  /** When cue `i` holds the text the run predicts, the loop's decision
      for it is the run's decision, and the step's speaking and merging
      tests agree with that decision. */
  lemma PlanOfFollows(subs0: seq<Cue>, job: Job, synth: (string, int) -> nat,
                      shorten: (string, real) -> string)
    requires job.i < |job.subs| && SameTimes(job.subs, subs0)
    requires job.subs[job.i].text == TextAt(subs0, job.i, shorten)
    ensures PlanOf(job, shorten) == PlanAt(subs0, job.i, shorten)
    ensures Speaks(job, shorten) <==> PlanAt(subs0, job.i, shorten).Speak?
    ensures Merges(job, shorten) <==> PlanAt(subs0, job.i, shorten).Merge?
    ensures Merges(job, shorten) ==> CandidateOf(job, shorten) == PlanAt(subs0, job.i, shorten).text
    ensures Speaks(job, shorten) ==>
      SpeechFor(job, synth, shorten) == SpeechAt(subs0, Plans(subs0, shorten), job.i, synth)
  {
    assert SlotMs(job.subs[job.i]) == SlotMs(subs0[job.i]);
  }

  /** After a step on cue `i`, cue `i + 1` holds the text the run
      predicts and later cues are untouched. */
  lemma StepFollowsTexts(subs0: seq<Cue>, job: Job, synth: (string, int) -> nat,
                         shorten: (string, real) -> string)
    requires job.i < |job.subs| && SameTimes(job.subs, subs0)
    requires FollowsPlans(subs0, job, synth, shorten)
    requires Step(job, synth, shorten).Next?
    ensures var next := Step(job, synth, shorten).job;
      && |next.subs| == |subs0|
      && (job.i + 1 < |subs0| ==> next.subs[job.i + 1].text == TextAt(subs0, job.i + 1, shorten))
      && (forall k :: job.i + 1 < k < |subs0| ==> next.subs[k].text == subs0[k].text)
  {
    PlanOfFollows(subs0, job, synth, shorten);
    StepMerge(job, synth, shorten);
  }

  /** After a step on cue `i`, the track holds the speech decided for the
      cues up to `i`. */
  lemma StepFollowsSpeech(subs0: seq<Cue>, job: Job, synth: (string, int) -> nat,
                          shorten: (string, real) -> string)
    requires job.i < |job.subs| && SameTimes(job.subs, subs0)
    requires FollowsPlans(subs0, job, synth, shorten)
    requires Step(job, synth, shorten).Next?
    ensures SpeechItems(Step(job, synth, shorten).job.audio)
         == SpokenBefore(subs0, Plans(subs0, shorten), job.i + 1, synth)
  {
    PlanOfFollows(subs0, job, synth, shorten);
    StepSpeech(job, synth, shorten);
  }

  /** After a step on cue `i`, the track is the reference track for the
      cues up to `i`. */
  lemma StepFollowsTrack(subs0: seq<Cue>, job: Job, synth: (string, int) -> nat,
                         shorten: (string, real) -> string)
    requires job.i < |job.subs| && SameTimes(job.subs, subs0)
    requires job.cursor == Length(job.audio)
    requires FollowsPlans(subs0, job, synth, shorten)
    requires Step(job, synth, shorten).Next?
    ensures Step(job, synth, shorten).job.audio == TrackBefore(subs0, Plans(subs0, shorten), job.i + 1, synth)
  {
    PlanOfFollows(subs0, job, synth, shorten);
    var plans := Plans(subs0, shorten);
    if !plans[job.i].Skip? {
      AdvanceFollowsTrack(subs0, plans, job, synth);
    }
  }

  /** Carrying out a cue's decision, when it does not raise, extends the
      reference track by that cue. */
  lemma AdvanceFollowsTrack(subs0: seq<Cue>, plans: seq<Plan>, job: Job, synth: (string, int) -> nat)
    requires SlotsFit(subs0, plans) && job.i < |plans| && SameTimes(job.subs, subs0)
    requires job.cursor == Length(job.audio)
    requires job.audio == TrackBefore(subs0, plans, job.i, synth)
    requires !plans[job.i].Skip? && !Raising(plans[job.i])
    requires plans[job.i].Merge? ==> job.i + 1 < |job.subs|
    ensures Advance(job, plans[job.i], synth).job.audio == TrackBefore(subs0, plans, job.i + 1, synth)
  {
    var k := job.i;
    var plan := plans[k];
    assert StartMs(job.subs[k]) == StartMs(subs0[k]) && SlotMs(job.subs[k]) == SlotMs(subs0[k]);
    var padded := PadTrack(job.audio, StartMs(subs0[k]));
    assert Pad(job, StartMs(job.subs[k])).audio == padded;
    if plan.Speak? {
      assert TrackBefore(subs0, plans, k + 1, synth) == padded + [SpeechAt(subs0, plans, k, synth)];
    } else {
      assert TrackBefore(subs0, plans, k + 1, synth) == padded;
    }
  }

  /** One iteration follows the run's decision for cue `i`: it raises
      exactly when that decision raises, and otherwise keeps the loop in
      step with the decisions. */
  lemma StepFollowsPlans(subs0: seq<Cue>, job: Job, synth: (string, int) -> nat,
                         shorten: (string, real) -> string)
    requires job.i < |job.subs| && SameTimes(job.subs, subs0)
    requires job.cursor == Length(job.audio)
    requires FollowsPlans(subs0, job, synth, shorten)
    ensures Step(job, synth, shorten).Raise? <==> Raising(PlanAt(subs0, job.i, shorten))
    ensures Step(job, synth, shorten).Next? ==>
      FollowsPlans(subs0, Step(job, synth, shorten).job, synth, shorten)
  {
    PlanOfFollows(subs0, job, synth, shorten);
    StepRaises(job, synth, shorten);
    var r := Step(job, synth, shorten);
    if r.Next? {
      StepFollowsTexts(subs0, job, synth, shorten);
      StepFollowsSpeech(subs0, job, synth, shorten);
      StepFollowsTrack(subs0, job, synth, shorten);
      assert !Raising(PlanAt(subs0, job.i, shorten));
    }
  }

  /** A step raises exactly when its decision is a failure. */
  lemma StepRaises(job: Job, synth: (string, int) -> nat, shorten: (string, real) -> string)
    requires job.i < |job.subs|
    ensures Step(job, synth, shorten).Raise? <==> Raising(PlanOf(job, shorten))
  {
  }

  /** Every item of `s` is the speech `plans` decides for its cue, a cue
      before `i`, and the items are in strictly increasing cue order. */
  predicate ItemsDecided(subs0: seq<Cue>, plans: seq<Plan>, s: seq<Item>, i: nat,
                         synth: (string, int) -> nat)
    requires SlotsFit(subs0, plans)
  {
    && (forall p :: 0 <= p < |s| ==>
          && s[p].Speech? && s[p].index < i && s[p].index < |plans|
          && plans[s[p].index].Speak?
          && s[p] == SpeechAt(subs0, plans, s[p].index, synth))
    && (forall p, q :: 0 <= p < q < |s| && s[p].Speech? && s[q].Speech? ==> s[p].index < s[q].index)
  }

  /** The run's speech, read item by item. */
  lemma {:induction false} SpokenBeforeItems(subs0: seq<Cue>, plans: seq<Plan>, i: nat,
                                             synth: (string, int) -> nat)
    requires SlotsFit(subs0, plans) && i <= |plans|
    ensures ItemsDecided(subs0, plans, SpokenBefore(subs0, plans, i, synth), i, synth)
  {
    if i > 0 {
      SpokenBeforeItems(subs0, plans, i - 1, synth);
      var s := SpokenBefore(subs0, plans, i, synth);
      var s0 := SpokenBefore(subs0, plans, i - 1, synth);
      var tail := if plans[i - 1].Speak? then [SpeechAt(subs0, plans, i - 1, synth)] else [];
      assert s == s0 + tail;
      forall p | 0 <= p < |s|
        ensures && s[p].Speech? && s[p].index < i && s[p].index < |plans|
                && plans[s[p].index].Speak?
                && s[p] == SpeechAt(subs0, plans, s[p].index, synth)
      {
        if p < |s0| {
          assert s[p] == s0[p];
        } else {
          assert s[p] == tail[0];
        }
      }
      forall p, q | 0 <= p < q < |s| && s[p].Speech? && s[q].Speech?
        ensures s[p].index < s[q].index
      {
        assert s[p] == s0[p];
        if q < |s0| {
          assert s[q] == s0[q];
        } else {
          assert s[q] == tail[0];
        }
      }
    }
  }

  /** Every cue before `i` that `plans` decides to speak, and no other
      cue, has an item in the speech. */
  lemma {:induction false} SpokenBeforeCovers(subs0: seq<Cue>, plans: seq<Plan>, i: nat,
                                              synth: (string, int) -> nat)
    requires SlotsFit(subs0, plans) && i <= |plans|
    ensures forall k :: 0 <= k < |plans| ==>
      (SpokenIn(SpokenBefore(subs0, plans, i, synth), k) <==> k < i && plans[k].Speak?)
  {
    if i > 0 {
      SpokenBeforeCovers(subs0, plans, i - 1, synth);
      SpokenBeforeItems(subs0, plans, i - 1, synth);
      var s := SpokenBefore(subs0, plans, i, synth);
      var s0 := SpokenBefore(subs0, plans, i - 1, synth);
      var tail := if plans[i - 1].Speak? then [SpeechAt(subs0, plans, i - 1, synth)] else [];
      assert s == s0 + tail;
      forall k | 0 <= k < |plans|
        ensures SpokenIn(s, k) <==> k < i && plans[k].Speak?
      {
        if SpokenIn(s, k) {
          var p :| 0 <= p < |s| && s[p].Speech? && s[p].index == k;
          if p < |s0| {
            assert s0[p] == s[p];
            assert SpokenIn(s0, k);
          } else {
            assert s[p] == tail[0];
          }
        }
        if k < i - 1 && plans[k].Speak? {
          assert SpokenIn(s0, k);
          var p :| 0 <= p < |s0| && s0[p].Speech? && s0[p].index == k;
          assert s[p] == s0[p];
        }
        if k == i - 1 && plans[k].Speak? {
          assert s[|s0|] == tail[0];
        }
      }
    }
  }

  /** A track whose speech items are the speech `plans` decides has
      speech for exactly the cues `plans` decides to speak. */
  lemma DecidedSpeech(subs0: seq<Cue>, plans: seq<Plan>, audio: seq<Item>, synth: (string, int) -> nat)
    requires SlotsFit(subs0, plans)
    requires SpeechItems(audio) == SpokenBefore(subs0, plans, |plans|, synth)
    ensures forall k :: 0 <= k < |plans| ==> (SpokenIn(audio, k) <==> plans[k].Speak?)
  {
    SpokenBeforeCovers(subs0, plans, |plans|, synth);
    forall k | 0 <= k < |plans|
      ensures SpokenIn(audio, k) <==> plans[k].Speak?
    {
      SpeechItemsSpoken(audio, k);
    }
  }

  /** A track whose speech items are the run's speech has speech for
      exactly the cues whose decision is to speak. */
  lemma ExportedSpeech(subs0: seq<Cue>, audio: seq<Item>, synth: (string, int) -> nat,
                       shorten: (string, real) -> string)
    requires SpeechItems(audio) == SpokenBefore(subs0, Plans(subs0, shorten), |subs0|, synth)
    ensures forall k :: 0 <= k < |subs0| ==> (SpokenIn(audio, k) <==> PlanAt(subs0, k, shorten).Speak?)
  {
    DecidedSpeech(subs0, Plans(subs0, shorten), audio, synth);
  }

  /** A cue has speech in a track exactly when it has an item among the
      track's speech items. */
  lemma {:induction false} SpeechItemsSpoken(audio: seq<Item>, k: nat)
    ensures SpokenIn(audio, k) <==> SpokenIn(SpeechItems(audio), k)
    decreases |audio|
  {
    if audio != [] {
      var front := Front(audio);
      SpeechItemsSpoken(front, k);
      var s := SpeechItems(audio);
      var s0 := SpeechItems(front);
      assert forall p :: 0 <= p < |s0| ==> s[p] == s0[p];
      assert forall p :: 0 <= p < |front| ==> audio[p] == front[p];
      if SpokenIn(audio, k) {
        var p :| 0 <= p < |audio| && audio[p].Speech? && audio[p].index == k;
        if p < |front| {
          assert SpokenIn(front, k);
        } else {
          assert s[|s0|] == audio[p];
        }
      }
      if SpokenIn(s, k) {
        var p :| 0 <= p < |s| && s[p].Speech? && s[p].index == k;
        if p < |s0| {
          assert SpokenIn(s0, k);
        } else {
          assert audio[|front|] == s[p];
        }
      }
    }
  }

  /** The whole loop invariant: the track invariant with the cursor bounds,
      and agreement with the run's decisions. */
  predicate RunInv(subs0: seq<Cue>, job: Job, synth: (string, int) -> nat,
                   shorten: (string, real) -> string) {
    LoopInv(subs0, job, synth) && FollowsPlans(subs0, job, synth, shorten)
  }

  /** One iteration keeps the whole loop invariant, and raises exactly
      when the run's decision for cue `i` raises, which happens only on
      the last cue and only for a slot that is not positive. */
  lemma StepKeepsRun(subs0: seq<Cue>, job: Job, synth: (string, int) -> nat,
                     shorten: (string, real) -> string)
    requires RunInv(subs0, job, synth, shorten) && job.i < |job.subs|
    ensures Step(job, synth, shorten).Raise? <==> Raising(PlanAt(subs0, job.i, shorten))
    ensures Step(job, synth, shorten).Raise? ==>
      && job.i == |subs0| - 1 && SlotMs(subs0[job.i]) <= 0
      && Step(job, synth, shorten).failure.index == job.i
      && (Step(job, synth, shorten).failure.DivisionByZero? <==> SlotMs(subs0[job.i]) == 0)
    ensures Step(job, synth, shorten).Next? ==> RunInv(subs0, Step(job, synth, shorten).job, synth, shorten)
  {
    StepKeepsInv(subs0, job, synth, shorten);
    StepFollowsPlans(subs0, job, synth, shorten);
    assert SlotMs(job.subs[job.i]) == SlotMs(subs0[job.i]);
  }

  /** When the loop has processed every cue, no decision raised and the
      track has the properties the export promises. */
  lemma FinishedRun(subs0: seq<Cue>, job: Job, synth: (string, int) -> nat,
                    shorten: (string, real) -> string)
    requires RunInv(subs0, job, synth, shorten) && job.i == |subs0|
    ensures !(|subs0| > 0 && Raising(PlanAt(subs0, |subs0| - 1, shorten)))
    ensures ItemsValid(subs0, job.audio, synth) && SpeechInCueOrder(job.audio)
    ensures Sorted(subs0) ==> SpeechAtCueStart(subs0, job.audio)
    ensures Sorted(subs0) && |subs0| > 0 ==> Length(job.audio) <= EndMs(subs0[|subs0| - 1])
    ensures forall k :: 0 <= k < |subs0| ==> (SpokenIn(job.audio, k) <==> PlanAt(subs0, k, shorten).Speak?)
    ensures job.audio == TrackBefore(subs0, Plans(subs0, shorten), |subs0|, synth)
    ensures SpeechItems(job.audio) == SpokenBefore(subs0, Plans(subs0, shorten), |subs0|, synth)
  {
    WellFormedTrackAll(subs0, job.audio, synth);
    if Sorted(subs0) {
      AlignedAll(subs0, job.audio);
    }
    ExportedSpeech(subs0, job.audio, synth, shorten);
  }

  /** `srt_to_audio`: processes the cues in order, starting from an empty
      track at cursor 0, and exports the track unless a cue raised. With a
      synthesiser that never fails, only the last cue can raise, and only
      when its slot is not positive. The exported track is the reference
      track of the run's decisions, silences included: every silence is a
      real gap, every speech item is valid for its cue and cues are spoken
      in order; for sorted cues every speech item starts exactly at its
      cue's start and the track ends no later than the last cue. */
  method SrtToAudio(subs0: seq<Cue>, synth: (string, int) -> nat, shorten: (string, real) -> string)
    returns (outcome: Outcome)
    ensures outcome.Raised? ==>
      |subs0| > 0 && outcome.failure.index == |subs0| - 1 && SlotMs(subs0[|subs0| - 1]) <= 0
    ensures outcome.Raised? ==>
      (outcome.failure.DivisionByZero? <==> SlotMs(subs0[|subs0| - 1]) == 0)
    ensures outcome.Exported? ==> ItemsValid(subs0, outcome.audio, synth)
    ensures outcome.Exported? ==> SpeechInCueOrder(outcome.audio)
    ensures outcome.Exported? && Sorted(subs0) ==> SpeechAtCueStart(subs0, outcome.audio)
    ensures outcome.Exported? && Sorted(subs0) && |subs0| > 0 ==>
      Length(outcome.audio) <= EndMs(subs0[|subs0| - 1])
    ensures outcome.Raised? <==> |subs0| > 0 && Raising(PlanAt(subs0, |subs0| - 1, shorten))
    ensures outcome.Exported? ==>
      SpeechItems(outcome.audio) == SpokenBefore(subs0, Plans(subs0, shorten), |subs0|, synth)
    ensures outcome.Exported? ==> outcome.audio == TrackBefore(subs0, Plans(subs0, shorten), |subs0|, synth)
    ensures outcome.Exported? ==> forall k :: 0 <= k < |subs0| ==>
      (SpokenIn(outcome.audio, k) <==> PlanAt(subs0, k, shorten).Speak?)
  {
    var job := Job(subs0, 0, 0, []);
    while job.i < |job.subs|
      invariant RunInv(subs0, job, synth, shorten)
      decreases |subs0| - job.i
    {
      StepKeepsRun(subs0, job, synth, shorten);
      match Step(job, synth, shorten)
      case Raise(failure) =>
        return Raised(failure);
      case Next(next) =>
        job := next;
    }
    FinishedRun(subs0, job, synth, shorten);
    outcome := Exported(job.audio);
  }

}

/** The per-cue decisions of the narration loop: the speech-length
    estimate, the speed-up rate, and the choice between skipping, merging
    into the successor and speaking. */
module Planner {
  import opened PyNum
  import opened TextPrep

  /** Shortest estimate ever returned, in seconds. */
  const MinSeconds: real := 0.4
  /** Assumed speaking speed, in characters per second. */
  const CharsPerSecond: real := 14.0
  /** `MAX_SPEED`: the largest speed-up factor the planner asks for. */
  const MaxSpeed: real := 1.5
  /** `int((MAX_SPEED - 1) * 100)`: the rate cap, in percent. */
  const MaxRate: int := Trunc((MaxSpeed - 1.0) * 100.0)

  /** `estimate_seconds`: `max(0.4, len(text) / 14)`. Python's `max`
      keeps its first argument unless the second is strictly larger. */
  function EstimateSeconds(text: string): (est: real)
    ensures est >= MinSeconds
    ensures est == |text| as real / CharsPerSecond <==> |text| >= 6
    ensures |text| < 6 ==> est == MinSeconds
  {
    var perChars := |text| as real / CharsPerSecond;
    if perChars > MinSeconds then perChars else MinSeconds
  }

  /** A longer text is never estimated shorter. */
  lemma EstimateMonotone(a: string, b: string)
    requires |a| <= |b|
    ensures EstimateSeconds(a) <= EstimateSeconds(b)
  {
  }

  /** A slot of `slotMs` milliseconds in seconds (`slot_ms / 1000`). */
  function SlotSeconds(slotMs: int): real {
    slotMs as real / 1000.0
  }

  /** Multiplying by a positive factor keeps the order. */
  lemma ScaleOrder(a: real, b: real, k: real)
    requires k > 0.0
    ensures a <= b <==> a * k <= b * k
    ensures a < b <==> a * k < b * k
  {
    assert b * k - a * k == (b - a) * k;
  }

  /** The rate computation of the loop: no speed-up when the estimate fits
      the slot, otherwise the excess in whole percent, capped. The source
      divides by the slot, so a zero slot is outside its domain. */
  function SpeedUpRate(est: real, slotSec: real): (rate: int)
    requires est > slotSec ==> slotSec != 0.0
    ensures est <= slotSec ==> rate == 0
    ensures rate <= MaxRate
  {
    if est > slotSec then Min(Trunc((est / slotSec - 1.0) * 100.0), MaxRate) else 0
  }

  /** The whole-percent excess of an estimate over a positive slot that
      it exceeds: a natural number `n` with the slot sped up by `n`
      percent at most the estimate and sped up by `n + 1` percent beyond
      it. */
  lemma ExcessPercent(est: real, slotSec: real)
    requires 0.0 < slotSec < est
    ensures var n := Trunc((est / slotSec - 1.0) * 100.0);
      && n >= 0
      && slotSec * (100 + n) as real <= est * 100.0 < slotSec * (101 + n) as real
      && (n == 0 <==> est < slotSec * 1.01)
      && (est > slotSec * MaxSpeed ==> n >= 50)
  {
    var excess := (est / slotSec - 1.0) * 100.0;
    var n := Trunc(excess);
    var q := est / slotSec;
    assert q * slotSec == est;
    assert excess * slotSec == est * 100.0 - slotSec * 100.0;
    ScaleOrder(slotSec, est, 1.0 / slotSec);
    assert excess > 0.0 && n == excess.Floor;
    ScaleOrder(n as real, excess, slotSec);
    ScaleOrder(excess, (n + 1) as real, slotSec);
    assert n == 0 <==> excess < 1.0;
    calc <==> {
      excess < 1.0;
      { ScaleOrder(excess, 1.0, slotSec); }
      excess * slotSec < 1.0 * slotSec;
      est * 100.0 - slotSec * 100.0 < slotSec;
      est * 100.0 < slotSec * 101.0;
      { ScaleOrder(est, slotSec * 1.01, 100.0); }
      est < slotSec * 1.01;
    }
    if est > slotSec * MaxSpeed {
      ScaleOrder(slotSec * MaxSpeed, est, 100.0);
      ScaleOrder(50.0, excess, slotSec);
      assert excess > 50.0;
    }
  }

  /** For a positive slot the rate is the whole-percent speed-up that
      brings the estimate within the slot, between 0 and the cap: it is 0
      exactly when the estimate is less than 1% over the slot, it is the
      cap once the estimate exceeds the slot at maximum speed-up, and in
      between the slot sped up by `rate` percent falls short of the
      estimate by less than one percent. A negative slot yields a negative
      rate of at least 100 percent. */
  lemma SpeedUpRateExact(est: real, slotSec: real)
    requires est > slotSec ==> slotSec != 0.0
    ensures var rate := SpeedUpRate(est, slotSec);
      && (slotSec > 0.0 ==> 0 <= rate <= MaxRate)
      && (slotSec > 0.0 ==> (rate == 0 <==> est < slotSec * 1.01))
      && (slotSec > 0.0 && slotSec < est <= slotSec * MaxSpeed ==>
            slotSec * (100 + rate) as real <= est * 100.0 < slotSec * (101 + rate) as real)
      && (slotSec > 0.0 && est > slotSec * MaxSpeed ==> rate == MaxRate)
      && (slotSec < 0.0 && est > 0.0 ==> rate <= -100)
  {
    if slotSec > 0.0 {
      if est > slotSec {
        RateOverSlot(est, slotSec);
      } else {
        assert est < slotSec + slotSec * 0.01 == slotSec * 1.01;
      }
    } else if slotSec < 0.0 && est > 0.0 {
      assert est / slotSec < 0.0;
    }
  }

  /** The rate for an estimate over a positive slot: the excess in whole
      percent, capped. */
  lemma RateOverSlot(est: real, slotSec: real)
    requires 0.0 < slotSec < est
    ensures var rate := SpeedUpRate(est, slotSec);
      && 0 <= rate <= MaxRate
      && (rate == 0 <==> est < slotSec * 1.01)
      && (est <= slotSec * MaxSpeed ==>
            slotSec * (100 + rate) as real <= est * 100.0 < slotSec * (101 + rate) as real)
      && (est > slotSec * MaxSpeed ==> rate == MaxRate)
  {
    assert MaxRate == 50;
    ExcessPercent(est, slotSec);
    var n := Trunc((est / slotSec - 1.0) * 100.0);
    var rate := SpeedUpRate(est, slotSec);
    assert rate == Min(n, MaxRate);
    assert n <= MaxRate ==> rate == n;
    assert n >= MaxRate ==> rate == MaxRate;
    assert rate == 0 <==> n == 0;
  }

  /** What the loop does with one cue once its text is known. */
  datatype Plan =
    | Skip                                  // text is blank: nothing happens
    | Merge(text: string)                   // too long: prepend to the successor
    | Speak(text: string, rate: int)        // synthesise at `rate` percent speed-up
    | ZeroSlot                              // last cue, zero-width: division by zero
    | NegativeSlot(text: string, rate: int) // last cue, end before start

  /** A text that does not fit a slot of `slotMs` milliseconds even at
      maximum speed-up. */
  predicate OverCapacity(text: string, slotMs: int) {
    EstimateSeconds(text) > SlotSeconds(slotMs) * MaxSpeed
  }

  /** The text the decision works with: `text` itself, or the shortening
      service's answer when `text` is over capacity. */
  function Candidate(text: string, slotMs: int, shorten: (string, real) -> string): string {
    if OverCapacity(text, slotMs) then shorten(text, SlotSeconds(slotMs)) else text
  }

  /** The decision for a cue whose normalised text `text` is not empty:
      merge exactly when the candidate text is still over capacity and a
      successor exists; otherwise fail for a last cue whose slot is not
      positive, and speak in every remaining case. Every decision that
      carries text carries the candidate text. */
  function PlanText(text: string, slotMs: int, hasNext: bool,
                    shorten: (string, real) -> string): (p: Plan)
    ensures !p.Skip?
    ensures p.Merge? || p.Speak? || p.NegativeSlot? ==> p.text == Candidate(text, slotMs, shorten)
    ensures p.Merge? <==> hasNext && OverCapacity(Candidate(text, slotMs, shorten), slotMs)
    ensures p.Speak? <==> slotMs > 0 && !(hasNext && OverCapacity(Candidate(text, slotMs, shorten), slotMs))
    ensures p.Merge? ==> p.text == shorten(text, SlotSeconds(slotMs))
    ensures hasNext && slotMs <= 0 ==> p.Merge?
    ensures p.Speak? ==> 0 <= p.rate <= MaxRate
    ensures p.Speak? && hasNext ==> EstimateSeconds(p.text) <= SlotSeconds(slotMs) * MaxSpeed
    ensures p.Speak? ==> p.rate == SpeedUpRate(EstimateSeconds(p.text), SlotSeconds(slotMs))
    ensures p.ZeroSlot? <==> !hasNext && slotMs == 0
    ensures p.NegativeSlot? <==> !hasNext && slotMs < 0
    ensures p.NegativeSlot? ==> p.rate <= -100
  {
    var slotSec := SlotSeconds(slotMs);
    var current := Candidate(text, slotMs, shorten);
    var est := EstimateSeconds(current);
    if OverCapacity(current, slotMs) && hasNext then Merge(current)
    else if slotMs == 0 then ZeroSlot
    else
      SpeedUpRateExact(est, slotSec);
      if slotMs < 0 then NegativeSlot(current, SpeedUpRate(est, slotSec))
      else Speak(current, SpeedUpRate(est, slotSec))
  }

  /** The decision part of one loop iteration for a cue with raw text
      `raw` and a slot of `slotMs` milliseconds; `hasNext` tells whether a
      successor cue exists, and `shorten` is the text-shortening service. */
  function PlanCue(raw: string, slotMs: int, hasNext: bool,
                   shorten: (string, real) -> string): (p: Plan)
    ensures p.Skip? <==> AllSpace(raw)
    ensures !p.Skip? ==> p == PlanText(Preprocess(raw), slotMs, hasNext, shorten)
  {
    var text := Preprocess(raw);
    if text == [] then Skip else PlanText(text, slotMs, hasNext, shorten)
  }

  /** The shortening service is consulted only for text whose estimate
      exceeds the slot at maximum speed-up: below that bound the decision
      does not depend on it, and the text is spoken as it is. */
  lemma PlanTextIgnoresShorten(text: string, slotMs: int, hasNext: bool,
                               f: (string, real) -> string, g: (string, real) -> string)
    requires EstimateSeconds(text) <= SlotSeconds(slotMs) * MaxSpeed
    ensures PlanText(text, slotMs, hasNext, f) == PlanText(text, slotMs, hasNext, g)
    ensures PlanText(text, slotMs, hasNext, f)
      == Speak(text, SpeedUpRate(EstimateSeconds(text), SlotSeconds(slotMs)))
  {
  }

  /** The same, for a raw cue text: a cue whose normalised text fits the
      slot at maximum speed-up is spoken unshortened whatever the
      shortening service would answer. */
  lemma ShortenOnlyWhenOverCapacity(raw: string, slotMs: int, hasNext: bool,
                                    f: (string, real) -> string, g: (string, real) -> string)
    requires EstimateSeconds(Preprocess(raw)) <= SlotSeconds(slotMs) * MaxSpeed
    ensures PlanCue(raw, slotMs, hasNext, f) == PlanCue(raw, slotMs, hasNext, g)
    ensures !AllSpace(raw) ==>
      PlanCue(raw, slotMs, hasNext, f)
      == Speak(Preprocess(raw), SpeedUpRate(EstimateSeconds(Preprocess(raw)), SlotSeconds(slotMs)))
  {
    var text := Preprocess(raw);
    if !AllSpace(raw) {
      PlanTextIgnoresShorten(text, slotMs, hasNext, f, g);
    }
  }

}

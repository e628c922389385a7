/** The playback state of the `MusicUI` screen: the remembered slider position
    (seconds elapsed) and the `playing` flag, the ticker coroutine that a
    `LaunchedEffect` keyed on `playing` runs, and the handlers the slider and
    the transport buttons call.

    The ticker loop is `while (playing && sliderPosition < 433) { delay(1000);
    sliderPosition = min(sliderPosition + 1, 433) }`. One `Tick` is the end of
    one `delay`: the increment, then the loop condition checked again. Whether
    the coroutine is suspended in its delay is the state `tickerPending`.
    Changing `playing` cancels that coroutine and launches a new one, which
    checks the loop condition afresh. */
module Playback {

  import TimeFormat

  /** Length of the one hard-coded track in seconds: the slider's upper bound
      and the value at which the ticker stops. */
  const TrackLength: real := 433.0

  /** The values the slider can report: its value range is 0 to the track
      length. */
  predicate InSliderRange(x: real) {
    0.0 <= x <= TrackLength
  }

  /** Kotlin's `coerceAtMost`: the smaller of `x` and `maximum`. */
  function CoerceAtMost(x: real, maximum: real): (r: real)
    ensures r <= x && r <= maximum
    ensures r == x || r == maximum
  {
    if x > maximum then maximum else x
  }

  /** The screen's state at one instant. `tickerPending` holds while the ticker
      coroutine is suspended in `delay` and will increment when it resumes. */
  datatype View = View(sliderPosition: real, playing: bool, tickerPending: bool)

  /** The loop condition of the ticker. */
  predicate LoopCondition(v: View) {
    v.playing && v.sliderPosition < TrackLength
  }

  /** What every reachable state satisfies: the position lies in the slider's
      range, and a ticker is only ever waiting while playing. (It may be
      waiting at the track length: a seek to the end during the delay does not
      cancel it.) */
  predicate Inv(v: View) {
    InSliderRange(v.sliderPosition) && (v.tickerPending ==> v.playing)
  }

  /** First composition: position 0, paused; the effect launched for
      `playing == false` leaves its loop at once. */
  function Initial(): (v: View)
    ensures Inv(v) && !LoopCondition(v) && !v.tickerPending
  {
    View(0.0, false, false)
  }

  /** One second elapses. A waiting ticker adds one second, capped at the
      track length, and checks its loop condition again; without a waiting
      ticker nothing happens. */
  function AfterTick(v: View): (r: View)
    ensures r.playing == v.playing
    ensures !v.tickerPending ==> r == v
    ensures v.tickerPending && v.sliderPosition + 1.0 <= TrackLength ==>
              r.sliderPosition == v.sliderPosition + 1.0
    ensures v.tickerPending && v.sliderPosition + 1.0 >= TrackLength ==>
              r.sliderPosition == TrackLength && !r.tickerPending
    ensures v.tickerPending ==> (r.tickerPending <==> LoopCondition(r))
    ensures Inv(v) ==> Inv(r)
  {
    if !v.tickerPending then v
    else
      var p := CoerceAtMost(v.sliderPosition + 1.0, TrackLength);
      View(p, v.playing, v.playing && p < TrackLength)
  }

  /** The slider's `onValueChange`: the position becomes the reported value;
      the ticker is not restarted or cancelled. */
  function AfterSeek(v: View, x: real): (r: View)
    requires InSliderRange(x)
    ensures r.sliderPosition == x
    ensures r.playing == v.playing && r.tickerPending == v.tickerPending
    ensures Inv(v) ==> Inv(r)
  {
    v.(sliderPosition := x)
  }

  /** `playing = b`. Writing the value it already has changes nothing; a new
      value restarts the effect, whose fresh loop is waiting exactly when its
      condition holds. */
  function AfterSetPlaying(v: View, b: bool): (r: View)
    ensures r.playing == b && r.sliderPosition == v.sliderPosition
    ensures b == v.playing ==> r == v
    ensures b != v.playing ==> (r.tickerPending <==> LoopCondition(r))
    ensures Inv(v) ==> Inv(r)
  {
    if b == v.playing then v
    else View(v.sliderPosition, b, b && v.sliderPosition < TrackLength)
  }

  /** The play/pause button: `onPlayingChange(!playing)`. */
  function AfterToggle(v: View): (r: View)
    ensures r.playing == !v.playing && r.sliderPosition == v.sliderPosition
    ensures r.tickerPending <==> LoopCondition(r)
  {
    AfterSetPlaying(v, !v.playing)
  }

  /** `n` seconds elapse with no input: `playing` stays as it was and the
      invariant is kept. */
  function Ticks(v: View, n: nat): (r: View)
    ensures r.playing == v.playing
    ensures Inv(v) ==> Inv(r)
  {
    if n == 0 then v else AfterTick(Ticks(v, n - 1))
  }

  /** With a ticker waiting, `n` seconds move the position forward by `n`,
      capped at the track length, and the ticker is still waiting exactly
      while the position stays below the end. */
  lemma {:induction false} TicksAdvance(v: View, n: nat)
    requires Inv(v) && v.tickerPending && n >= 1
    ensures Ticks(v, n).playing == v.playing
    ensures Ticks(v, n).sliderPosition == CoerceAtMost(v.sliderPosition + n as real, TrackLength)
    ensures Ticks(v, n).tickerPending <==> v.sliderPosition + n as real < TrackLength
  {
    if n > 1 {
      TicksAdvance(v, n - 1);
    }
  }

  /** Without a waiting ticker time changes nothing: once the ticker has
      stopped, at the end of the track or on pause, no further increment
      happens. */
  lemma {:induction false} IdleTicks(v: View, n: nat)
    requires !v.tickerPending
    ensures Ticks(v, n) == v
  {
    if n > 0 {
      IdleTicks(v, n - 1);
    }
  }

  /** From 432 seconds one tick reaches 433, and the ticker then stops for
      good. */
  lemma TickerStopsAtEnd(v: View, n: nat)
    requires Inv(v) && v.tickerPending && v.sliderPosition == TrackLength - 1.0
    ensures AfterTick(v).sliderPosition == TrackLength
    ensures Ticks(AfterTick(v), n) == AfterTick(v)
  {
    IdleTicks(AfterTick(v), n);
  }

  /** A seek while playing: the next tick counts on from the new position, not
      from the old one. */
  lemma SeekThenTick(v: View, x: real)
    requires Inv(v) && v.tickerPending && InSliderRange(x) && x + 1.0 <= TrackLength
    ensures AfterTick(AfterSeek(v, x)).sliderPosition == x + 1.0
  {
  }

  /** Pausing halts the position however much time passes; playing again
      resumes counting from where it stood. */
  lemma PauseThenResume(v: View, n: nat)
    requires Inv(v) && v.playing && v.sliderPosition + 1.0 <= TrackLength
    ensures Ticks(AfterToggle(v), n) == AfterToggle(v)
    ensures AfterTick(AfterToggle(Ticks(AfterToggle(v), n))).sliderPosition == v.sliderPosition + 1.0
  {
    IdleTicks(AfterToggle(v), n);
  }

  /** Toggling twice restores `playing` and the position, and leaves a fresh
      ticker waiting exactly when the loop condition holds. */
  lemma ToggleTwice(v: View)
    ensures AfterToggle(AfterToggle(v)).playing == v.playing
    ensures AfterToggle(AfterToggle(v)).sliderPosition == v.sliderPosition
    ensures AfterToggle(AfterToggle(v)).tickerPending <==> LoopCondition(v)
  {
  }

  /** The effect is keyed on `playing` alone. After the ticker has stopped at
      the end of the track, seeking back does not start it again, so time
      does not move the position; pausing and playing does. */
  lemma SeekBackAfterEnd(v: View, x: real, n: nat)
    requires Inv(v) && v.playing && !v.tickerPending
    requires InSliderRange(x) && x + 1.0 <= TrackLength
    ensures Ticks(AfterSeek(v, x), n).sliderPosition == x
    ensures AfterTick(AfterToggle(AfterToggle(AfterSeek(v, x)))).sliderPosition == x + 1.0
  {
    IdleTicks(AfterSeek(v, x), n);
  }

  // ---------------------------------------------------------------------
  // Runs of input

  /** The inputs the screen reacts to. */
  datatype Event =
    | Elapsed                 // one second passes
    | SliderMoved(position: real) // the slider's onValueChange
    | PlayingChanged(playing: bool) // onPlayingChange
    | PlayPausePressed
    | BackPressed              // an empty handler
    | NextPressed              // an empty handler

  /** Slider values come from the slider's value range. */
  predicate Feasible(e: Event) {
    e.SliderMoved? ==> InSliderRange(e.position)
  }

  predicate AllFeasible(es: seq<Event>) {
    forall i :: 0 <= i < |es| ==> Feasible(es[i])
  }

  function Apply(v: View, e: Event): View
    requires Feasible(e)
  {
    match e
    case Elapsed => AfterTick(v)
    case SliderMoved(x) => AfterSeek(v, x)
    case PlayingChanged(b) => AfterSetPlaying(v, b)
    case PlayPausePressed => AfterToggle(v)
    case BackPressed => v
    case NextPressed => v
  }

  function Run(v: View, es: seq<Event>): View
    requires AllFeasible(es)
    decreases |es|
  {
    if es == [] then v else Run(Apply(v, es[0]), es[1..])
  }

  /** Every input keeps the invariant: in particular the position never
      leaves 0..433 and no ticker waits while paused. */
  lemma {:induction false} RunKeepsInv(v: View, es: seq<Event>)
    requires Inv(v) && AllFeasible(es)
    ensures Inv(Run(v, es))
    decreases |es|
  {
    if es != [] {
      assert Feasible(es[0]);
      var w := Apply(v, es[0]);
      assert Inv(w);
      RunKeepsInv(w, es[1..]);
    }
  }

  /** Every state reachable from the first composition satisfies the
      invariant, and the left-hand label it shows is M:SS with M * 60 + SS
      the whole seconds elapsed, at most 433. */
  lemma Reachable(es: seq<Event>)
    requires AllFeasible(es)
    ensures Inv(Run(Initial(), es))
    ensures var p := Run(Initial(), es).sliderPosition;
      && 0 <= TimeFormat.ToInt(p) <= 433
      && TimeFormat.ParseTime(TimeFormat.FloatToTime(p)) == TimeFormat.Some(TimeFormat.ToInt(p))
  {
    RunKeepsInv(Initial(), es);
    var p := Run(Initial(), es).sliderPosition;
    TimeFormat.ParseFloatToTime(p);
  }

  /** Only the slider moves the position backwards: without slider input the
      position never decreases. */
  lemma {:induction false} NoSeekNoRewind(v: View, es: seq<Event>)
    requires Inv(v)
    requires forall i :: 0 <= i < |es| ==> !es[i].SliderMoved?
    ensures AllFeasible(es)
    ensures Run(v, es).sliderPosition >= v.sliderPosition
    decreases |es|
  {
    if es != [] {
      NoSeekNoRewind(Apply(v, es[0]), es[1..]);
    }
  }

  /** The previous and next buttons never change anything. */
  lemma {:induction false} BackAndNextChangeNothing(v: View, es: seq<Event>)
    requires forall i :: 0 <= i < |es| ==> es[i] == BackPressed || es[i] == NextPressed
    ensures AllFeasible(es)
    ensures Run(v, es) == v
    decreases |es|
  {
    if es != [] {
      BackAndNextChangeNothing(v, es[1..]);
    }
  }

  // ---------------------------------------------------------------------
  // The composable's state, updated in place

  class MusicUI {
    var sliderPosition: real
    var playing: bool
    var tickerPending: bool

    function Snapshot(): View
      reads this
    {
      View(sliderPosition, playing, tickerPending)
    }

    ghost predicate Valid()
      reads this
    {
      Inv(Snapshot())
    }

    /** `remember { mutableFloatStateOf(0f) }`, `remember { mutableStateOf(false) }`
        and the first launch of the effect, whose loop condition fails while
        paused. */
    constructor ()
      ensures Valid() && Snapshot() == Initial()
    {
      sliderPosition := 0.0;
      playing := false;
      tickerPending := false;
    }

    /** The ticker's `delay` ends: one pass of the loop body and the next check
        of its condition. */
    method Tick()
      requires Valid()
      modifies this
      ensures Valid()
      ensures Snapshot() == AfterTick(old(Snapshot()))
    {
      if tickerPending {
        sliderPosition := CoerceAtMost(sliderPosition + 1.0, TrackLength);
        tickerPending := playing && sliderPosition < TrackLength;
      }
    }

    /** The ticker left to itself: the loop runs until its condition fails.
        Every tick it takes does work, and a ticker that was waiting always
        ends at the track length. */
    method RunTicker() returns (ticks: nat)
      requires Valid()
      modifies this
      ensures Valid()
      ensures Snapshot() == Ticks(old(Snapshot()), ticks)
      ensures !tickerPending
      ensures old(tickerPending) ==> sliderPosition == TrackLength
      ensures !old(tickerPending) ==> ticks == 0
      ensures forall k :: 0 <= k < ticks ==> Ticks(old(Snapshot()), k).tickerPending
    {
      ticks := 0;
      while tickerPending
        invariant Valid()
        invariant Snapshot() == Ticks(old(Snapshot()), ticks)
        invariant forall k :: 0 <= k < ticks ==> Ticks(old(Snapshot()), k).tickerPending
        invariant ticks > 0 ==> tickerPending || sliderPosition == TrackLength
        invariant !old(tickerPending) ==> ticks == 0
        decreases (if tickerPending then 1 else 0) + (TrackLength - sliderPosition).Floor
      {
        Tick();
        ticks := ticks + 1;
      }
    }

    /** `onPositionChange = { sliderPosition = it }`. */
    method OnPositionChange(x: real)
      requires Valid() && InSliderRange(x)
      modifies this
      ensures Valid()
      ensures Snapshot() == AfterSeek(old(Snapshot()), x)
    {
      sliderPosition := x;
    }

    /** `onPlayingChange = { playing = it }`, with the effect relaunched when
        the key changes. */
    method OnPlayingChange(b: bool)
      requires Valid()
      modifies this
      ensures Valid()
      ensures Snapshot() == AfterSetPlaying(old(Snapshot()), b)
    {
      if b != playing {
        playing := b;
        tickerPending := playing && sliderPosition < TrackLength;
      }
    }

    /** The play/pause button. */
    method OnPlayPausePressed()
      requires Valid()
      modifies this
      ensures Valid()
      ensures Snapshot() == AfterToggle(old(Snapshot()))
    {
      OnPlayingChange(!playing);
    }

    /** The previous button's handler is empty. */
    method OnBackPressed()
      ensures unchanged(this)
    {
    }

    /** The next button's handler is empty. */
    method OnNextPressed()
      ensures unchanged(this)
    {
    }
  }
}

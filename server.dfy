/**
 * The presentation server's state and its socket handlers: the deck, the
 * index of the slide on screen, the countdown timer and the `state.json`
 * snapshot, with one method per `host:*` command and one for the 1 Hz tick.
 * Each method returns the events it broadcasts with `io.emit`, in order.
 */
module Server {
  import opened Wrappers
  import opened Timer
  import opened Deck

  /** A broadcast to every connected client. */
  datatype Event = SlideChanged(index: int) | TimerUpdate(timer: TimerState)

  /** `state.json` as `loadState` finds it: absent, unreadable or not JSON,
      or an object whose `currentSlide` is an integer (`None` when that
      property is missing or null). */
  datatype StateFile = NoFile | Corrupt | Saved(currentSlide: Option<int>)

  /** `Math.min(data.currentSlide || 0, slides.length - 1)`: the index
      restored at startup. It is at most the last index, but it is negative
      for an empty deck or a negative saved value. */
  function RestoredIndex(saved: Option<int>, deckSize: nat): (r: int)
    ensures r <= deckSize - 1 && r <= saved.GetOr(0)
    ensures r == deckSize - 1 || r == saved.GetOr(0)
    ensures 0 <= saved.GetOr(0) && deckSize > 0 ==> 0 <= r < deckSize
  {
    var wanted := saved.GetOr(0);
    if wanted < deckSize - 1 then wanted else deckSize - 1
  }

  /** What `saveState` writes, `loadState` reads back: an index inside the
      deck survives a restart unchanged. */
  lemma SaveThenRestore(index: int, deckSize: nat)
    requires 0 <= index < deckSize
    ensures RestoredIndex(Saved(Some(index)).currentSlide, deckSize) == index
  {
  }

  class Presentation {
    /** `slides`, fixed once loaded. */
    const slides: seq<Slide>
    var currentSlideIndex: int
    var timer: TimerState
    /** The contents of `state.json`, rewritten by `saveState`. */
    var stateFile: StateFile

    /** What every handler keeps: a running timer has a start time, and the
        index is a slide of the deck, or the initial 0, or at most the last
        index (negative values come only from a restored snapshot). */
    ghost predicate Valid()
      reads this
    {
      WellFormed(timer) && (currentSlideIndex < |slides| || currentSlideIndex == 0)
    }

    /** The index names a slide of the deck. */
    predicate InRange()
      reads this
    {
      0 <= currentSlideIndex < |slides|
    }

    /** Process start: `slides = loadTranslations(); loadState();` with the
        timer in its initial, zeroed state. */
    constructor (src: CsvSource, file: StateFile)
      ensures Valid()
      ensures LoadedFrom(slides, src)
      ensures timer == Zeroed && stateFile == file
      ensures currentSlideIndex == if file.Saved? then RestoredIndex(file.currentSlide, |slides|) else 0
    {
      var deck := LoadTranslations(src);
      slides := deck;
      timer := Zeroed;
      stateFile := file;
      currentSlideIndex := 0;
      if file.Saved? {
        currentSlideIndex := RestoredIndex(file.currentSlide, |deck|);
      }
    }

    /** `host:changeSlide(index)`: an index outside the deck, or the slide
        already shown, is ignored without a broadcast (so a running timer is
        not interrupted); otherwise the slide becomes current, is saved, the
        timer is replaced by the slide's idle timer, and `slideChanged` then
        `timerUpdate` are broadcast. */
    method ChangeSlide(index: int) returns (events: seq<Event>)
      requires Valid()
      modifies this
      ensures Valid()
      ensures old(InRange()) ==> InRange()
      ensures if 0 <= index < |slides| && index != old(currentSlideIndex) then
          && currentSlideIndex == index
          && stateFile == Saved(Some(index))
          && timer == ForSlide(slides[index].duration)
          && events == [SlideChanged(index), TimerUpdate(timer)]
        else
          && currentSlideIndex == old(currentSlideIndex)
          && stateFile == old(stateFile)
          && timer == old(timer)
          && events == []
    {
      events := [];
      if 0 <= index < |slides| {
        if index != currentSlideIndex {
          currentSlideIndex := index;
          stateFile := Saved(Some(currentSlideIndex));
          timer := ForSlide(slides[currentSlideIndex].duration);
          events := [SlideChanged(currentSlideIndex), TimerUpdate(timer)];
        }
      }
    }

    /** `host:nextSlide`: moves one slide forward unless the last slide (or
        beyond) is shown. `fault` is set when the index moved to a negative
        value (only possible from a restored index below -1): the slide read
        is `undefined` and the handler throws after saving, before touching
        the timer or broadcasting. */
    method NextSlide() returns (events: seq<Event>, fault: bool)
      requires Valid()
      modifies this
      ensures Valid()
      ensures old(InRange()) ==> InRange() && !fault
      ensures if old(currentSlideIndex) < |slides| - 1 then
          && currentSlideIndex == old(currentSlideIndex) + 1
          && stateFile == Saved(Some(currentSlideIndex))
          && fault == (currentSlideIndex < 0)
          && (fault ==> timer == old(timer) && events == [])
          && (!fault ==> timer == ForSlide(slides[currentSlideIndex].duration)
                         && events == [SlideChanged(currentSlideIndex), TimerUpdate(timer)])
        else
          && currentSlideIndex == old(currentSlideIndex)
          && stateFile == old(stateFile)
          && timer == old(timer)
          && events == [] && !fault
    {
      events, fault := [], false;
      if currentSlideIndex < |slides| - 1 {
        currentSlideIndex := currentSlideIndex + 1;
        stateFile := Saved(Some(currentSlideIndex));
        if currentSlideIndex < 0 {
          // `slides[currentSlideIndex]` is undefined: reading its duration throws
          fault := true;
          return;
        }
        timer := ForSlide(slides[currentSlideIndex].duration);
        events := [SlideChanged(currentSlideIndex), TimerUpdate(timer)];
      }
    }

    /** `host:prevSlide`: moves one slide back unless the first slide (or
        before) is shown; otherwise like `host:nextSlide`. */
    method PrevSlide() returns (events: seq<Event>)
      requires Valid()
      modifies this
      ensures Valid()
      ensures old(InRange()) ==> InRange()
      ensures if old(currentSlideIndex) > 0 then
          && currentSlideIndex == old(currentSlideIndex) - 1
          && InRange()
          && stateFile == Saved(Some(currentSlideIndex))
          && timer == ForSlide(slides[currentSlideIndex].duration)
          && events == [SlideChanged(currentSlideIndex), TimerUpdate(timer)]
        else
          && currentSlideIndex == old(currentSlideIndex)
          && stateFile == old(stateFile)
          && timer == old(timer)
          && events == []
    {
      events := [];
      if currentSlideIndex > 0 {
        currentSlideIndex := currentSlideIndex - 1;
        stateFile := Saved(Some(currentSlideIndex));
        timer := ForSlide(slides[currentSlideIndex].duration);
        events := [SlideChanged(currentSlideIndex), TimerUpdate(timer)];
      }
    }

    /** `host:startTimer(seconds)` at time `now`: the whole timer is replaced,
        whatever it was, so nothing carries over from an earlier start. */
    method StartTimer(seconds: int, now: int) returns (events: seq<Event>)
      requires Valid()
      modifies this`timer
      ensures Valid()
      ensures timer == Started(seconds, now)
      ensures timer.running && timer.timeLeft == timer.totalTime == seconds && timer.startTime == Some(now)
      ensures events == [TimerUpdate(timer)]
    {
      timer := Started(seconds, now);
      events := [TimerUpdate(timer)];
    }

    /** `host:stopTimer`: only `running` is cleared; the time left, the total
        and the start time stay as they were. */
    method StopTimer() returns (events: seq<Event>)
      requires Valid()
      modifies this`timer
      ensures Valid()
      ensures !timer.running
      ensures timer.timeLeft == old(timer.timeLeft) && timer.totalTime == old(timer.totalTime)
      ensures timer.startTime == old(timer.startTime)
      ensures events == [TimerUpdate(timer)]
    {
      timer := timer.(running := false);
      events := [TimerUpdate(timer)];
    }

    /** `host:resetTimer`: a zeroed, stopped timer from any state; the slide
        index is not touched. */
    method ResetTimer() returns (events: seq<Event>)
      requires Valid()
      modifies this`timer
      ensures Valid()
      ensures timer == Zeroed && !timer.running && timer.timeLeft == 0 && timer.totalTime == 0
      ensures currentSlideIndex == old(currentSlideIndex)
      ensures events == [TimerUpdate(timer)]
    {
      timer := Zeroed;
      events := [TimerUpdate(timer)];
    }

    /** The `setInterval` body at time `now`: a running timer with time left
        has it recomputed from the clock, stops when it reaches 0, and is
        broadcast; any other timer is left alone, silently. */
    method Tick(now: int) returns (events: seq<Event>)
      requires Valid()
      modifies this`timer
      ensures Valid()
      ensures timer == Ticked(old(timer), now)
      ensures old(Counting(timer)) ==>
                && events == [TimerUpdate(timer)]
                && timer.timeLeft == Remaining(timer.totalTime, timer.startTime.value, now)
                && timer.running == (timer.timeLeft != 0)
      ensures !old(Counting(timer)) ==> timer == old(timer) && events == []
    {
      events := [];
      if timer.running && timer.timeLeft > 0 {
        var elapsed := ElapsedSeconds(timer.startTime.value, now);
        var left := timer.totalTime - elapsed;
        timer := timer.(timeLeft := if left > 0 then left else 0);
        if timer.timeLeft == 0 {
          timer := timer.(running := false);
        }
        events := [TimerUpdate(timer)];
      }
    }
  }

  /** The default deck lasts 30 and 45 seconds: starting the timer on the
      first slide and moving on resets it to the second slide's idle 45
      seconds, broadcasting the slide change before the timer. */
  method StartThenNextScenario(now: int) returns (events: seq<Event>)
    ensures events == [SlideChanged(1), TimerUpdate(TimerState(false, 45, 45, None))]
  {
    var p := new Presentation(Missing, NoFile);
    var started := p.StartTimer(30, now);
    var fault;
    events, fault := p.NextSlide();
  }

  /** Re-selecting the slide on screen leaves a running timer untouched and
      broadcasts nothing. */
  method ReselectScenario(now: int) returns (events: seq<Event>, timer: TimerState)
    ensures events == [] && timer == Started(30, now)
  {
    var p := new Presentation(Missing, NoFile);
    var started := p.StartTimer(30, now);
    events := p.ChangeSlide(0);
    timer := p.timer;
  }

  /** A 10-second timer ticked 11 seconds after its start reports 0 once and
      stops; the next tick is silent. */
  method ExpiryScenario(start: int) returns (first: seq<Event>, second: seq<Event>)
    ensures first == [TimerUpdate(TimerState(false, 0, 10, Some(start)))]
    ensures second == []
  {
    var p := new Presentation(Missing, NoFile);
    var started := p.StartTimer(10, start);
    RemainingAfter(10, start, 11, 0);
    first := p.Tick(start + 11000);
    second := p.Tick(start + 12000);
  }
}

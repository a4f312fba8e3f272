# Presentation-state engine of a multi-language slide server

This project models, in Dafny, the state engine of a small Node.js server
(`server.js`) that shows one slide deck to many viewers at once. Each slide
has a title and a content per language and a duration in seconds. The server
keeps the index of the slide on screen and a countdown timer. It accepts
host commands over socket.io (`host:changeSlide`, `host:nextSlide`,
`host:prevSlide`, `host:startTimer`, `host:stopTimer`, `host:resetTimer`) and
broadcasts `slideChanged` and `timerUpdate` events to every client. A 1 Hz
interval recomputes the time left from the wall clock. It saves the slide
index to `state.json` and restores it at startup.

Modules:

- `Timer` (timer.dfy): the `timerState` record, the recomputation
  `max(0, totalTime - floor((now - startTime) / 1000))`, and one tick as a
  function. The lemmas show the countdown is bounded and never increases.
  For a timer started with a non-negative count and ticked at
  non-decreasing clock readings, they also show that every tick leaves
  exactly the value the clock gives (no drift), and that once the count
  reaches 0 every later tick changes nothing. A clock that steps back is
  not followed after the count reached 0.
- `JsNumbers` (js_numbers.dfy): JavaScript's `parseInt` without a radix and
  the `parseInt(x) || 0` idiom used for durations. A lemma proves that it
  reads back every decimal numeral.
- `Deck` (deck.dfy): CSV rows, slides, and the grouping loop of
  `loadTranslations` as a method. The method is proved against a fold
  (`Grouped`), and lemmas about that fold cover ids, durations, per-language
  texts and the error path. The module also holds the built-in default deck
  and the language set of `getAvailableLanguages`.
- `Server` (server.dfy): class `Presentation`, with the deck, the current
  index, the timer and the saved snapshot as fields. There is one method per
  socket handler plus `Tick` for the interval body. Each returns the events
  it broadcasts, in order. The class invariant is that a running timer has a
  start time and that the index is below the deck size (or is the initial 0).
  The three scenario methods at the end run the handlers as a client would.

Time is a parameter: `now` is what `Date.now()` would return, in
milliseconds. Reading `translations.csv` and `state.json` is also a
parameter: the constructor takes the parsed records (`CsvSource`) and the
snapshot (`StateFile`). A write of `state.json` becomes an update of the
field `stateFile`.

The server serves one deck to everyone. It has no rooms or per-set state,
and no host authentication: every handler acts for whoever sends the
command. In `server.js`, and so in the model:

- `host:stopTimer` keeps `startTime`; it only clears `running`.
- The tick broadcasts every second while the timer is running with time
  left, even when the value did not change.
- Durations and the `seconds` of `host:startTimer` are unvalidated integers
  and may be negative. A negative start makes the tick inactive and leaves
  the timer "running" forever.
- The restored index is only bounded above. An empty deck or a negative
  saved value leaves it negative, and `host:nextSlide` from an index below
  -1 then throws a TypeError after it has moved and saved the index.

The model also covers these JavaScript object quirks of the grouping. The
slide map is a plain `{}`, so a slide id such as `toString` or `__proto__`
finds an inherited member instead of `undefined`:

- For such an id, no slide is created.
- A row with such an id and a language throws, and `loadTranslations` falls
  back to the default deck.
- A row with such an id and no language is silently dropped.
- A language named `__proto__` adds no title or content key.

## Model

| member | source | states |
|---|---|---|
| `Timer.Ticked` | server.js:242-248 | One run of the interval body: only a running timer with time left changes; it gets the time left the clock gives and stops exactly when that is 0. Total and start time never change, and a running timer keeps its start time |
| `Timer.Remaining` | server.js:243-244 | The recomputed time left is never negative, is at most the total once the clock has passed the start and the total is not negative, and is positive only while less than `totalTime` seconds have elapsed |
| `Timer.RemainingNonIncreasing` | server.js:243-244 | For a fixed start and total, a later clock never gives more time left |
| `Timer.RemainingAfter` | server.js:243-244 | `k` whole seconds plus under 1000 ms after the start, the time left is exactly `max(0, total - k)` |
| `Timer.StartedTracks` | server.js:212-217 | A freshly started timer with a non-negative count agrees with the clock at its start time |
| `Timer.TickTracks` | server.js:242-248 | One tick at a later time keeps the timer equal to the clock's value, never raises the time left, acts exactly when time is left, and leaves a timer at 0 unchanged |
| `Timer.TracksOrdered` | server.js:243-244 | Two states that follow the same start at an earlier and a later clock reading: the later one has no more time left, and once the earlier one reached 0 the later one is the same state |
| `Timer.TicksFollowClock` | server.js:241-252 | For any non-decreasing tick schedule of a timer that tracks its start: each tick leaves the clock's value for its instant, whatever number of ticks ran before; the values never increase; running is false exactly when the count reached 0 (a 0-second start stays running); after 0 every later state is the same |
| `JsNumbers.ParseInt` | server.js:51 | `parseInt(s)` without a radix: trims StrWhiteSpaceChar, takes one sign, reads base 16 after a `0x`/`0X` prefix and base 10 otherwise, and returns the value of the longest digit run, `None` for NaN. A string of white space only is NaN, and a number is read only when the trimmed string starts with a sign or a decimal digit |
| `JsNumbers.ParseIntOrZero` | server.js:51 | `parseInt(s) \|\| 0`: the parsed number when there is one, and 0 exactly when `parseInt` gives NaN or 0 |
| `JsNumbers.DigitRunStops` | server.js:51 | The digits `parseInt` reads are all digits of the base, and reading stops at the first character that is not one |
| `JsNumbers.ParseUnsigned` | server.js:51 | `parseInt` of a string that starts with a digit is the magnitude read from it: nothing is skipped and no sign applies |
| `JsNumbers.ParseNegative` | server.js:51 | A leading minus sign before a digit negates the magnitude; NaN stays NaN |
| `JsNumbers.ParseDecimal` | server.js:51 | `parseInt` (and `parseInt(...) \|\| 0`) of the decimal numeral of any integer gives that integer back |
| `Deck.AddRow` | server.js:44-59 | One step of the `forEach`: it throws exactly when the row `Throws`. Otherwise the slides are the previous ones plus the row's id unless that id is an inherited member name, and a map keyed by slide id stays keyed by slide id |
| `Deck.Grouped` | server.js:43-60 | The `forEach` over all rows as a left fold of `AddRow` from the empty map; every slide it produces is stored under its own id |
| `Deck.AddRecord` | server.js:44-60 | The `forEach` callback throws exactly on a row whose id is an inherited member name and which has a language. Otherwise it performs one step of the grouping fold and keeps the slide map keyed by slide id, with the creation order listing its keys once each |
| `Deck.LoadTranslations` | server.js:28-67 | A missing or unreadable CSV, or a throwing grouping, gives the default deck; otherwise the deck lists each grouped slide exactly once |
| `Deck.GroupedFails` | server.js:44-66 | The grouping throws exactly when some row has an inherited-member id and a language |
| `Deck.GroupedKeys` | server.js:45-53 | There is one slide per distinct id (an empty id counts as "1"), stored under its own id; inherited-member ids never become slides |
| `Deck.GroupedDuration` | server.js:46-52 | A slide's duration is `parseInt(...) \|\| 0` of the first row with its id; later rows never change it |
| `Deck.GroupedLanguages` | server.js:55-59 | A slide has a title in exactly the languages of its rows that name a language (other than `__proto__`), and a content in the same languages |
| `Deck.GroupedLatestText` | server.js:55-59 | Each title and content holds the text of the last row with that slide id and language |
| `Deck.DefaultSlides` | server.js:69-100 | `createDefaultSlides()`: the two-slide deck with ids "1" and "2", titles and contents in exactly en, pl and de, and positive durations (30 s and 45 s) |
| `Deck.AvailableLanguages` | server.js:133-139 | The result lists every language that some slide has a title in, each exactly once, and no other |
| `Server.RestoredIndex` | server.js:107 | The restored index is the minimum of the saved value (0 when missing) and the last index. It lies inside the deck when the deck is non-empty and the saved value is not negative |
| `Server.SaveThenRestore` | server.js:107-122 | An index inside the deck written by `saveState` is restored unchanged |
| `Server.Presentation.constructor` | server.js:103-130 | Startup loads the deck as `loadTranslations` does, then runs `loadState`; the timer starts zeroed, as its initial value at server.js:19-25. The index is the restored one when `state.json` holds an object, and 0 when the file is missing or unreadable |
| `Server.Presentation.ChangeSlide` | server.js:154-173 | An index outside the deck, or the current index, changes nothing and broadcasts nothing. Otherwise it sets the index, saves it, replaces the timer by the slide's idle timer and broadcasts `slideChanged` then `timerUpdate`. An in-range index stays in range |
| `Server.Presentation.NextSlide` | server.js:175-191 | It does nothing at or past the last slide. Otherwise it moves forward one slide, saves, resets the timer and broadcasts `slideChanged` then `timerUpdate`; from an index below -1 it throws after saving. An in-range index stays in range and never throws |
| `Server.Presentation.PrevSlide` | server.js:193-209 | It does nothing at slide 0 (or before). Otherwise it moves back one slide, which is then inside the deck, saves, resets the timer and broadcasts both events in order |
| `Server.Presentation.StartTimer` | server.js:211-219 | The whole timer is replaced by a running one with `timeLeft = totalTime = seconds` and `startTime = now`, whatever it was; one `timerUpdate` |
| `Server.Presentation.StopTimer` | server.js:221-224 | Only `running` is cleared; time left, total and start time are kept; one `timerUpdate` |
| `Server.Presentation.ResetTimer` | server.js:226-233 | The timer becomes stopped with time left and total 0, from any state; the index is untouched; one `timerUpdate` |
| `Server.Presentation.Tick` | server.js:241-252 | A running timer with time left gets the clock's value, stops exactly when that is 0, and is broadcast once. Any other timer is unchanged and nothing is broadcast |
| `Server.StartThenNextScenario` | server.js:175-219 | On the default deck (30 s, 45 s), starting the timer and then moving on broadcasts `slideChanged(1)` and then an idle 45-second timer |
| `Server.ReselectScenario` | server.js:154-173 | Re-selecting the slide on screen leaves a running timer untouched and broadcasts nothing |
| `Server.ExpiryScenario` | server.js:241-252 | A 10-second timer ticked 11 s after its start reports 0 once and stops; the next tick is silent |

## Left out

- Express, http and socket.io: serving static files, `listen`, the connection and disconnect logging, and the `init` snapshot sent to a newly connected client. These are transport plumbing. Broadcasting (`io.emit`) is modelled as an event appended to the returned sequence.
- File and parser I/O is left out: `fs.existsSync`, `readFileSync`, `writeFileSync`, `JSON.parse` and the `csv-parse` call. Their outcomes are inputs (`CsvSource`, `StateFile`). Writes of `state.json` always succeed in the model. The `timestamp` that `saveState` writes is not modelled, since nothing reads it.
- `Date.now()` and `setInterval` scheduling: `now` is a parameter, and the interval body is the method `Tick`.
- Deck.LoadTranslations: the contract leaves the order of the slides unspecified. JavaScript's `Object.values` lists integer-like ids in ascending numeric order first, then the other ids in insertion order; the body returns first-appearance order, which is one of the orders the contract allows.
- Deck.AvailableLanguages: the contract does not state the order of the languages (insertion order in JavaScript), because a slide's titles are an unordered Dafny map.
- Payloads that are not integers (strings, fractions, `undefined`) for `host:changeSlide` and `host:startTimer`, and a `currentSlide` in `state.json` that is not an integer, are not modelled. They are integers or `Option<int>`.
- JsNumbers.ParseInt: results are unbounded integers. JavaScript numbers lose precision above 2^53, and that rounding is not modelled.
- Server.Presentation.NextSlide: the TypeError is reported as `fault`. What the runtime then does with the uncaught exception (possibly ending the process) is not modelled.
- public/script.js (viewer rendering, font fitting, timer styling) is not part of this model: it only displays what the server broadcasts.

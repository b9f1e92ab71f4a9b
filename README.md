# Monkeytyper game engine in Dafny

A model of the typing-game engine of Monkeytyper, the `Game` class of
`game.cpp`. Words scroll from the left edge of the window to the right.
The player types into a buffer. The engine keeps the closest matching word
highlighted, and Enter confirms a word spelled exactly as typed. Every word
that crosses the right edge costs a life. A timer spawns new words, and
every 15th spawn raises the speed and shortens the spawn interval. A status
field switches between Active, Paused, Ended and the restart menu.

The project has five modules. `Wrappers` (`wrappers.dfy`) holds the `Option` type that the others share. The other four are these:

- `Words` (`words.dfy`) holds the words on screen and the value-level rules:
  - the prefix test;
  - the highlight scan, as the first-wins max-by function `Closest`, and its
    loop `ClosestWord`;
  - the typed-part marking;
  - `std::find_if` and `erase` on Enter;
  - the keystroke's buffer edit, `KeyEdit`;
  - moving words (`Advance`);
  - stable removal past the edge (`Survivors`, `OutCount`);
  - the invariant `HighlightConsistent`: at most one word shows a typed
    part, and that part is the buffer.
- `Difficulty` (`difficulty.dfy`) holds the ramp applied after a spawn and
  its closed form over many spawns.
- `Assets` (`assets.dfy`) holds the word-file path and the topic menu labels.
- `TypingGame` (`game.dfy`) holds the `Game` class:
  - the fields of the C++ object;
  - the handlers that change them, each framed by the fields it may modify;
  - `Valid()`, the invariant every handler keeps;
  - the twostate predicate `Ticked`, which is what one running frame of
    `updateGame` makes of the old state;
  - small scenarios (a restart begun from the pause screen, and the last
    life being lost).

What the model takes as input instead of computing it:

- The clock (`gameClock.restart()` and `getElapsedTime()`) becomes the
  parameters `elapsed` and `clockElapsed`.
- `rand() % wordList.size()` becomes the index `pick`.
- The rendered text width of a spawned word becomes `width`, and its random
  height becomes `y`.
- The window width becomes `windowWidth`.
- A mouse click becomes a call to the method of the button it lands on
  (`PressPause`, `PressResume`, `PressRestart`, `ChooseTopic`,
  `ConfirmRestartAsWritten`). `ConfirmRestart` is the corrected confirm
  described under "## Findings".
- Reading the word file becomes the token sequence `tokens`.
- Positions, speed and times are `real`.

Details of the code that the model keeps:

- An Enter that matches no word leaves the buffer as it is.
- Loading a category appends to the word bank and never clears it. The
  confirm button clears the bank itself before reloading it.
- A frame runs in this order:
  1. move;
  2. spawn check;
  3. `timeElapsed += dt`;
  4. removal;
  5. end check.

  So a word spawned in a frame is checked against the edge in the same
  frame, and the timer check sees the time from before that frame.
- The constructor starts with 1 life (`game.cpp:8`), and the confirm button
  sets 5.
- Confirm does not restore `spawnInterval`.
- Lives can fall below zero when several words cross in one frame. Any
  `lives <= 0` ends the game.

## Model

| member | source | states |
|---|---|---|
| `Words.Substr0` | game.cpp:514 | `substr(0, n)` gives the first `n` characters of `s`, or all of `s` when it is shorter; the result is a prefix of `s` |
| `Words.MatchesIsPrefix` | game.cpp:514 | the scan's `substr` comparison holds exactly when the buffer is a prefix of the word |
| `Words.Matches` | game.cpp:514 | defines the scan's test: the word starts with the buffer (`substr` of the buffer's length equals it) |
| `Words.Mark` | game.cpp:522-528 | defines the second loop: the chosen word gets the buffer as its typed part, every other word `""` |
| `Words.Highlight` | game.cpp:511-528 | defines both loops together: mark the word `Closest` chooses |
| `Words.KeyEdit` | game.cpp:491-509 | defines the buffer edit: Backspace drops the last character if any, Enter removes the first word equal to the buffer, clears it and scores, any other character is appended |
| `Words.Advance` | game.cpp:605-609 | defines `updateWords`: every word's x grows by the displacement |
| `Words.NewWord` | game.cpp:588-603 | defines the spawned word: the bank word, nothing typed, x = -width, height y |
| `Words.Survivors` | game.cpp:610-619 | defines the words `remove_if` keeps: those not past the right edge, in order |
| `Words.OutCount` | game.cpp:610-619 | defines the lives lost: one per word past the right edge |
| `Words.Bound` | game.cpp:512-517 | defines the running `maxPositionX`: the x of the word chosen so far, or -1 before any |
| `Words.IsEnter` | game.cpp:497 | defines the Enter test: carriage return or line feed |
| `Words.OutOfBounds` | game.cpp:613 | defines a word past the edge: its x exceeds the window width |
| `Words.Closest` | game.cpp:511-520 | the chosen index, if any, is a position of the list |
| `Words.ClosestSound` | game.cpp:511-520 | the scan chooses nothing iff no matching word lies right of -1; otherwise it chooses a matching word right of -1 with the largest x, ahead of every earlier matching word with that x |
| `Words.ClosestUnique` | game.cpp:515 | because `>` is strict, at most one index satisfies the choice rule, so ties go to the earliest |
| `Words.ClosestExactly` | game.cpp:511-520 | the scan returns `k` iff `k` is the first right-most matching word right of -1 |
| `Words.ClosestWord` | game.cpp:511-520 | the loop tracking `closestWord` and `maxPositionX` computes `Closest`: nothing iff there is no candidate, else the first right-most candidate |
| `Words.HighlightSelectsClosest` | game.cpp:511-528 | after both loops, length, text and positions are unchanged; the chosen word's typed part is the buffer and every other word's is `""`; with no candidate, every part is `""` |
| `Words.HighlightExample` | game.cpp:511-528 | with "cat" at 10, "car" at 50 and "dog" at 5, the buffer "ca" highlights "car" alone |
| `Words.SpawnedWordNotHighlighted` | game.cpp:596 | a word spawned at `x = -width`, with width at least 1, is never highlighted, since the scan starts at -1 |
| `Words.MarkCountSameParts` | game.cpp:605-609 | lists with the same typed parts, position by position, have the same number of highlighted words |
| `Words.MarkCountOfMark` | game.cpp:522-528 | marking leaves exactly one word with a typed part when a word is chosen and the buffer is not empty, and none otherwise |
| `Words.HighlightKeepsConsistent` | game.cpp:511-528 | after highlighting, at most one word shows a typed part, and that part is the buffer, a prefix of the word, whatever the words showed before |
| `Words.FirstMatch` | game.cpp:498-501 | `find_if` returns the first position whose text equals the buffer, or nothing when no word does |
| `Words.RemoveAt` | game.cpp:503 | `erase` drops exactly that position and keeps the order of the others |
| `Words.BackspaceDropsLast` | game.cpp:493-496 | Backspace removes the last character, does nothing on an empty buffer, and never touches words or score |
| `Words.EnterConfirms` | game.cpp:497-506 | Enter scores iff some word equals the buffer; it then removes the first such word and clears the buffer; otherwise words and buffer stay; the buffer never grows |
| `Words.OtherKeyAppends` | game.cpp:507-509 | any other character is appended once, at the end, with words and score untouched |
| `Words.SurvivorsCount` | game.cpp:610-619 | the kept words and the counted words together are the whole list, so lives fall by exactly the number removed |
| `Words.SurvivorsMembers` | game.cpp:610-619 | a word is kept iff it was on screen and is not past the right edge |
| `Words.SurvivorsConcat` | game.cpp:611 | `remove_if` is stable: removing from a concatenation is the concatenation of the removals |
| `Words.SurvivorsAllInside` | game.cpp:610-619 | with no word past the edge, nothing is removed and no life is lost |
| `Words.SurvivorsMarkCount` | game.cpp:610-619 | removal never adds a highlighted word |
| `Words.AdvanceKeepsConsistent` | game.cpp:605-609 | moving words keeps the highlight invariant |
| `Words.AppendKeepsConsistent` | game.cpp:587-603 | appending a word with an empty typed part keeps the highlight invariant |
| `Words.SurvivorsKeepConsistent` | game.cpp:610-619 | removing words keeps the highlight invariant |
| `Difficulty.Ramp` | game.cpp:571-574 | defines the ramp after a spawn: on a counter divisible by 15, speed + 10 and interval max(interval - 0.5, 0.5), otherwise no change |
| `Difficulty.AfterSpawns` | game.cpp:566-574 | defines the level after `n` further spawns: the ramp applied once per spawn, on each new counter value |
| `Difficulty.Max` | game.cpp:573 | `std::max` is the larger of its arguments |
| `Difficulty.RampMonotone` | game.cpp:571-574 | from an interval of at least 0.5, the ramp never lowers the speed, never raises the interval, and keeps it at 0.5 or above |
| `Difficulty.AfterSpawnsClosedForm` | game.cpp:569-574 | after `n` spawns from a zero counter, speed has risen by `10 * (n / 15)` and the interval has fallen by `0.5 * (n / 15)`, floored at 0.5 |
| `Difficulty.AfterSpawnsMonotone` | game.cpp:566-577 | over any run of spawns, speed does not fall and the interval does not rise or drop below 0.5 |
| `Assets.CategoryPath` | game.cpp:88 | the path is `"../assets/"`, then the category, then `".txt"` |
| `Assets.CategoryPathInjective` | game.cpp:88 | different categories are read from different files |
| `Assets.TopicLabel` | game.cpp:371 | a menu option reads `"- "` followed by its topic |
| `Assets.SelectedTopic` | game.cpp:445 | `substring(2)` drops the first two characters, and fails on a text shorter than two |
| `Assets.SelectedTopicOfLabel` | game.cpp:443-447 | stripping a menu option's label gives back its topic |
| `TypingGame.Game.constructor` | game.cpp:8 | a new game is Active and unpaused, with speed 100, interval 2.5, zero counters, 1 life and no words |
| `TypingGame.Game.UploadWordsFromFile` | game.cpp:70-85 | the tokens read are appended to the bank in order; nothing is cleared |
| `TypingGame.Game.SetCategory` | game.cpp:86-90 | records the category, sets the path to its file, and appends the file's words |
| `TypingGame.Game.TextEntered` | game.cpp:490-529 | codes of 128 and above change nothing; otherwise buffer, score and words become the keystroke's edit followed by the highlight; the invariant is kept in every status |
| `TypingGame.Game.EditBuffer` | game.cpp:491-509 | the buffer, words and score become exactly the keystroke's edit |
| `TypingGame.Game.HighlightClosest` | game.cpp:511-528 | the words become their highlight for the buffer, which satisfies the highlight invariant |
| `TypingGame.Game.MarkClosest` | game.cpp:522-528 | the loop gives the chosen word the buffer and every other word `""` |
| `TypingGame.Displacement` | game.cpp:607 | defines how far a word moves in one frame: `speed * dt` |
| `TypingGame.Game.Running` | game.cpp:562 | defines when `updateGame` does anything: Active and not paused |
| `TypingGame.Game.SpawnDue` | game.cpp:566-567 | defines when a frame spawns: the timer has reached the interval and lives remain |
| `TypingGame.Game.Ticked` | game.cpp:561-586 | defines one running frame between two states: the words move by the old speed times `elapsed`; a due spawn appends the picked word and ramps the level on the new count; the timer restarts or runs on; lives fall by the words past the edge among the moved and spawned ones; the survivors remain, or, with no lives left, Ended with an empty screen; buffer, score, bank and `paused` stay |
| `TypingGame.Game.UpdateGame` | game.cpp:561-586 | nothing changes unless the game is Active and unpaused; otherwise the state is one frame on (`Ticked`), and the invariant is kept |
| `TypingGame.Game.Tick` | game.cpp:563-584 | one frame: words move by `speed * elapsed`; a due spawn appends the picked word and ramps the level; the timer restarts or runs on; each word past the edge costs a life; no lives left means Ended with an empty screen |
| `TypingGame.Game.MoveAndSpawn` | game.cpp:563-577 | dt is the clock reading; the words are the moved words plus the spawned one if due; the counter, level and timer follow the spawn rule |
| `TypingGame.Game.DropAndEnd` | game.cpp:578-584 | lives fall by the number of words past the edge; with lives left the survivors remain, otherwise the game is Ended and the screen is empty |
| `TypingGame.Game.SpawnIfDue` | game.cpp:566-576 | a spawn happens iff the timer has run out and lives remain; it appends one word, raises the counter, restarts the timer and applies the ramp; otherwise nothing changes |
| `TypingGame.Game.ApplyRamp` | game.cpp:571-574 | the level becomes `Ramp` of the old level on the current counter; speed does not fall, and the interval does not rise or drop below 0.5 |
| `TypingGame.Game.UpdateWords` | game.cpp:605-609 | every word moves right by `speed * dt`, and nothing else about the words changes |
| `TypingGame.Game.SpawnWord` | game.cpp:587-604 | the picked bank word is appended, with nothing typed, its right edge at 0, at height `y` |
| `TypingGame.Game.RemoveOutOfBoundsWords` | game.cpp:610-619 | the words past the edge are removed, the others keep their order, and lives fall by exactly the number removed |
| `TypingGame.Game.PressEscape` | game.cpp:538-548 | Escape swaps Active and Paused (pausing records the clock, resuming subtracts it from the timer) and leaves Ended and the menu unchanged |
| `TypingGame.Game.PressPause` | game.cpp:405-409 | while Active or Paused, the pause button pauses and records the clock |
| `TypingGame.Game.PressResume` | game.cpp:410-414 | while Active or Paused, the resume button makes the game Active, unpaused, with the pause time subtracted from the timer |
| `TypingGame.Game.PressRestart` | game.cpp:418-420 | a click that hits the restart rectangle while Active or Paused opens the menu. No restart button is drawn there, but once a game-over screen has sized the rectangle it lies under the resume button. The game-over screen's restart button does the same once Ended (479-480). In the menu nothing happens |
| `TypingGame.Game.Reset` | game.cpp:558-560 | only the status changes, to the restart menu |
| `TypingGame.Game.ChooseTopic` | game.cpp:443-450 | in the menu, the clicked option's topic becomes the selected topic and the category, and its words are appended; elsewhere nothing changes |
| `TypingGame.Game.ConfirmRestartAsWritten` | game.cpp:455-473 | confirm zeroes score, counter and timer, sets speed 100 and 5 lives, clears words and buffer, reloads the bank, and makes the game Active; `spawnInterval` and `paused` keep their values |
| `TypingGame.Game.ConfirmRestart` | game.cpp:455-473 | the same confirm with `paused` cleared, so the restarted game is running |
| `TypingGame.PausedRestartFreezes` | game.cpp:455-473 | as written, a restart clicked while paused shows Active after confirm, but its frames do nothing |
| `TypingGame.PausedRestartRuns` | game.cpp:455-473 | with the corrected confirm, the same restart runs and spawns on time |
| `TypingGame.OneWordSpawned` | game.cpp:561-586 | on a one-word bank, the first frame only starts the timer and the second spawns the word at `-width` |
| `TypingGame.LastLifeEndsGame` | game.cpp:579-584 | with one life, a word crossing the edge ends the game with 0 lives and an empty screen, and the next frame changes nothing |

## Left out

- Rendering, layout and screen resizing (`display*`, `render`, `setupLayout`, `updateElementPositions`, the `Resized` branch at game.cpp:549-553) are drawing only. The `Resized` branch also sits inside the key-press case, where the event type can never be `Resized`.
- Fonts, colours and resources (`loadResources`, `changeFont`, `changeFontSize`, `updateChosenFontColor`) wrap graphics-library calls that are not visible here.
- Mouse hit-testing (`getGlobalBounds().contains`) is graphics geometry. Each click is modelled as the press of the button it reaches. On the pause and game-over screens the checks form an else-if chain, so one click presses one button. In the menu, the confirm check stands on its own, and the model treats a topic click and a confirm as separate clicks.
- `TypingGame.Game.PressRestart`: the state does not record which button rectangles have been sized or drawn. So the model lets a restart click happen while Active or Paused at any time. In the game, that click can only hit once a game-over screen has sized the restart rectangle (game.cpp:214), and then only in the part of the resume rectangle outside the RESUME text (game.cpp:63-65, 410).
- The exit button, window closing, `saveResult` with its timestamp, and opening the results file are I/O with no effect on the engine's state.
- Reading the word file is modelled as a given token sequence. The error messages for a missing or empty file are output only.
- `Game::start` and the main loop are wiring: they call `setCategory`, then repeat input, update and render. The start screen (start.cpp, start.h) and main.cpp are not part of this model.
- The clock is a parameter, so the model takes the time since the last restart as given. It does not model the clock itself, or `gameClock.restart()` on resume and on confirm.
- `TypingGame.Game.UpdateGame`: requires `pick < |wordList|` whenever a spawn is due. With an empty bank the code computes `rand() % 0`, which is undefined, so a due spawn on an empty bank is not modelled.
- The random height of a spawned word, and its range, are reduced to the parameter `y`.
- `points`, `wordCount` and `lives` are 32-bit `int` in the game, while the model's counters are unbounded integers. Wrap-around would take billions of confirmed, spawned or lost words, so it is not modelled.
- Single-precision floats are modelled as `real`. Rounding, including the `float` cast in the interval floor, is not modelled.
- `TypingGame.Game.ChooseTopic`: takes the index of a menu option. The option texts are always labels of at least two characters, so the out-of-range case of `substring(2)` is proved not to arise rather than being modelled as an error path.

## Findings

| source | as written | input that shows it | evidently intended | confidence | as-written member | corrected member |
|---|---|---|---|---|---|---|
| game.cpp:455-473 | the confirm button makes the game Active but leaves `paused` as it was, and `updateGame` runs only when `paused` is false | after an earlier game over (whose screen sizes the restart rectangle, game.cpp:214), pause with Escape, then click inside the resume button's rectangle but outside its RESUME text (410 fails, 418 hits), then confirm, then frames of 3 seconds: the status reads Active, yet no frame moves, spawns or advances the timer | the restarted game runs, just as a restart from the game-over screen does | not executed; follows from game.cpp:562 together with 540-541, 63-65 and 418-419 | `TypingGame.PausedRestartFreezes` (on `TypingGame.Game.ConfirmRestartAsWritten`) | `TypingGame.PausedRestartRuns` (on `TypingGame.Game.ConfirmRestart`) |

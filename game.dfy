/** The `Game` object of the typing game: its counters, the words on
    screen, and the handlers for keystrokes, ticks and status changes. */
module TypingGame {
  import opened Wrappers
  import opened Words
  import opened Difficulty
  import Assets

  datatype GameState = Active | Paused | Ended | RestartMenu

  /** Lives set by the constructor's initialiser list. */
  const InitialLives: int := 1
  /** Lives set by the restart menu's confirm button. */
  const ConfirmLives: int := 5
  /** Character codes above this are ignored by the keystroke handler. */
  const AsciiLimit: nat := 128

  /** How far a word moves in one frame. */
  function Displacement(speed: real, dt: real): real {
    speed * dt
  }

  class Game {
    var gameStatus: GameState
    var paused: bool
    var dt: real
    var speed: real
    var points: int
    var wordCount: int
    var spawnInterval: real
    var timeElapsed: real
    /** Clock reading taken when the game was paused. */
    var pausedTime: real
    var lives: int
    var currentCategory: string
    var categoryFilePath: string
    var selectedTopic: string
    var wordList: seq<string>
    var wordsOnScreen: seq<ActiveWord>
    var typedWord: string

    /** What every handler keeps true. */
    ghost predicate Valid()
      reads this
    {
      && spawnInterval >= MinInterval
      && speed >= InitialSpeed
      && points >= 0
      && wordCount >= 0
      && (gameStatus == Active || gameStatus == Paused ==> lives > 0)
      && (gameStatus == Ended ==> wordsOnScreen == [] && lives <= 0)
      && HighlightConsistent(wordsOnScreen, typedWord)
    }

    /** `updateGame` runs only in this state. */
    predicate Running()
      reads this
    {
      gameStatus == Active && !paused
    }

    /** A tick spawns a word only in this state. */
    predicate SpawnDue()
      reads this
    {
      timeElapsed >= spawnInterval && lives > 0
    }

    constructor ()
      ensures Valid() && Running()
      ensures gameStatus == Active && !paused
      ensures speed == InitialSpeed && spawnInterval == InitialSpawnInterval
      ensures points == 0 && wordCount == 0 && timeElapsed == 0.0 && lives == InitialLives
      ensures wordsOnScreen == [] && typedWord == [] && wordList == [] && currentCategory == []
    {
      gameStatus := Active;
      paused := false;
      dt := 0.0;
      speed := InitialSpeed;
      points := 0;
      wordCount := 0;
      spawnInterval := InitialSpawnInterval;
      timeElapsed := 0.0;
      pausedTime := 0.0;
      lives := InitialLives;
      currentCategory := [];
      categoryFilePath := [];
      selectedTopic := [];
      wordList := [];
      wordsOnScreen := [];
      typedWord := [];
    }

    // -------------------------------------------------------------
    // Word bank
    // -------------------------------------------------------------

    /** Appends the words read from a file; the bank is never cleared here. */
    method UploadWordsFromFile(tokens: seq<string>)
      requires Valid()
      modifies this`wordList
      ensures Valid()
      ensures wordList == old(wordList) + tokens
    {
      var i := 0;
      while i < |tokens|
        invariant 0 <= i <= |tokens|
        invariant wordList == old(wordList) + tokens[..i]
      {
        assert tokens[..i + 1] == tokens[..i] + [tokens[i]];
        wordList := wordList + [tokens[i]];
        i := i + 1;
      }
      assert tokens[..|tokens|] == tokens;
    }

    /** Records the category, builds its file name and appends its words. */
    method SetCategory(category: string, tokens: seq<string>)
      requires Valid()
      modifies this`currentCategory, this`categoryFilePath, this`wordList
      ensures Valid()
      ensures currentCategory == category
      ensures categoryFilePath == Assets.CategoryPath(category)
      ensures wordList == old(wordList) + tokens
    {
      currentCategory := category;
      categoryFilePath := Assets.CategoryPath(category);
      UploadWordsFromFile(tokens);
    }

    // -------------------------------------------------------------
    // Keystrokes
    // -------------------------------------------------------------

    /** A text event: edit the buffer, then highlight the closest match.
        No status is consulted. */
    method TextEntered(unicode: nat)
      requires Valid()
      modifies this`typedWord, this`wordsOnScreen, this`points
      ensures Valid()
      ensures unicode >= AsciiLimit ==>
        typedWord == old(typedWord) && wordsOnScreen == old(wordsOnScreen) && points == old(points)
      ensures unicode < AsciiLimit ==>
        var e := KeyEdit(old(wordsOnScreen), old(typedWord), unicode as char);
        && typedWord == e.typed
        && points == old(points) + (if e.scored then 1 else 0)
        && wordsOnScreen == Highlight(e.words, e.typed)
    {
      if unicode < AsciiLimit {
        EditBuffer(unicode as char);
        HighlightClosest();
      }
    }

    /** Backspace drops the last character, Enter confirms the first word
        spelled exactly as typed, any other character is appended. */
    method EditBuffer(typedChar: char)
      modifies this`typedWord, this`wordsOnScreen, this`points
      ensures var e := KeyEdit(old(wordsOnScreen), old(typedWord), typedChar);
        && typedWord == e.typed && wordsOnScreen == e.words
        && points == old(points) + (if e.scored then 1 else 0)
    {
      if typedChar == Backspace {
        if typedWord != [] {
          typedWord := typedWord[..|typedWord| - 1];
        }
      } else if IsEnter(typedChar) {
        var wordIter := FirstMatch(wordsOnScreen, typedWord);
        if wordIter.Some? {
          wordsOnScreen := RemoveAt(wordsOnScreen, wordIter.value);
          typedWord := [];
          points := points + 1;
        }
      } else {
        typedWord := typedWord + [typedChar];
      }
    }

    /** Finds the closest word for the buffer and marks it, whatever the
        words carried before. */
    method HighlightClosest()
      modifies this`wordsOnScreen
      ensures wordsOnScreen == Highlight(old(wordsOnScreen), typedWord)
      ensures HighlightConsistent(wordsOnScreen, typedWord)
    {
      var closestWord := ClosestWord(wordsOnScreen, typedWord);
      MarkClosest(closestWord);
      HighlightKeepsConsistent(old(wordsOnScreen), typedWord);
    }

    /** The `typedPart` loop: the chosen word gets the buffer, the others "". */
    method MarkClosest(closestWord: Option<nat>)
      modifies this`wordsOnScreen
      ensures wordsOnScreen == Mark(old(wordsOnScreen), closestWord, typedWord)
    {
      var i := 0;
      while i < |wordsOnScreen|
        invariant 0 <= i <= |wordsOnScreen| == |old(wordsOnScreen)|
        invariant forall j :: 0 <= j < i ==>
          wordsOnScreen[j] == Mark(old(wordsOnScreen), closestWord, typedWord)[j]
        invariant forall j :: i <= j < |wordsOnScreen| ==> wordsOnScreen[j] == old(wordsOnScreen)[j]
      {
        var part := if closestWord == Some(i) then typedWord else [];
        wordsOnScreen := wordsOnScreen[i := wordsOnScreen[i].(typedPart := part)];
        i := i + 1;
      }
    }

    // -------------------------------------------------------------
    // Ticks
    // -------------------------------------------------------------

    /** What one running frame makes of the state before it: words move by
        `speed * elapsed`, a due spawn appends the picked word and ramps the
        difficulty, the timer restarts or runs on, words past the right edge
        cost a life each, and no lives left ends the game with an empty
        screen. */
    twostate predicate Ticked(elapsed: real, pick: nat, width: real, y: real, windowWidth: real)
      requires old(SpawnDue()) ==> pick < |old(wordList)|
      reads this
    {
      var moved := Advance(old(wordsOnScreen), Displacement(old(speed), elapsed));
      var spawned := if old(SpawnDue()) then [NewWord(old(wordList)[pick], width, y)] else [];
      var pool := moved + spawned;
      && dt == elapsed
      && wordCount == old(wordCount) + |spawned|
      && Level(speed, spawnInterval) ==
           (if old(SpawnDue()) then Ramp(Level(old(speed), old(spawnInterval)), wordCount)
            else Level(old(speed), old(spawnInterval)))
      && timeElapsed == (if old(SpawnDue()) then 0.0 else old(timeElapsed)) + elapsed
      && lives == old(lives) - OutCount(pool, windowWidth)
      && (lives > 0 ==> gameStatus == Active && wordsOnScreen == Survivors(pool, windowWidth))
      && (lives <= 0 ==> gameStatus == Ended && wordsOnScreen == [])
      && typedWord == old(typedWord) && points == old(points) && wordList == old(wordList)
      && paused == old(paused)
    }

    /** One pass of `updateGame`, `elapsed` being the clock's reading and
        `pick` standing for `rand() % wordList.size()`: nothing happens
        unless the game is Active and not paused. */
    method UpdateGame(elapsed: real, pick: nat, width: real, y: real, windowWidth: real)
      requires Valid()
      requires Running() && SpawnDue() ==> pick < |wordList|
      modifies this`dt, this`wordsOnScreen, this`wordCount, this`timeElapsed
      modifies this`speed, this`spawnInterval, this`lives, this`gameStatus
      ensures Valid()
      ensures !old(Running()) ==> unchanged(this)
      ensures old(Running()) ==> Ticked(elapsed, pick, width, y, windowWidth)
    {
      if gameStatus == Active && !paused {
        Tick(elapsed, pick, width, y, windowWidth);
      }
    }

    /** The body of `updateGame` once the game is running: the two halves
        of a frame, one after the other. */
    method Tick(elapsed: real, pick: nat, width: real, y: real, windowWidth: real)
      requires gameStatus == Active
      requires SpawnDue() ==> pick < |wordList|
      requires spawnInterval >= MinInterval
      requires HighlightConsistent(wordsOnScreen, typedWord)
      modifies this`dt, this`wordsOnScreen, this`wordCount, this`timeElapsed
      modifies this`speed, this`spawnInterval, this`lives, this`gameStatus
      ensures spawnInterval >= MinInterval && speed >= old(speed)
      ensures HighlightConsistent(wordsOnScreen, typedWord)
      ensures Ticked(elapsed, pick, width, y, windowWidth)
    {
      ghost var pool := Advance(wordsOnScreen, Displacement(speed, elapsed))
        + (if SpawnDue() then [NewWord(wordList[pick], width, y)] else []);
      MoveAndSpawn(elapsed, pick, width, y);
      assert wordsOnScreen == pool;
      DropAndEnd(windowWidth);
    }

    /** The first half of a frame: words move, a due word spawns, the timer
        restarts or runs on. */
    method MoveAndSpawn(elapsed: real, pick: nat, width: real, y: real)
      requires SpawnDue() ==> pick < |wordList|
      requires spawnInterval >= MinInterval
      requires HighlightConsistent(wordsOnScreen, typedWord)
      modifies this`dt, this`wordsOnScreen, this`wordCount, this`timeElapsed
      modifies this`speed, this`spawnInterval
      ensures dt == elapsed
      ensures spawnInterval >= MinInterval && speed >= old(speed)
      ensures HighlightConsistent(wordsOnScreen, typedWord)
      ensures wordsOnScreen == Advance(old(wordsOnScreen), Displacement(old(speed), elapsed))
        + (if old(SpawnDue()) then [NewWord(wordList[pick], width, y)] else [])
      ensures wordCount == old(wordCount) + (if old(SpawnDue()) then 1 else 0)
      ensures Level(speed, spawnInterval) ==
        (if old(SpawnDue()) then Ramp(Level(old(speed), old(spawnInterval)), wordCount)
         else Level(old(speed), old(spawnInterval)))
      ensures timeElapsed == (if old(SpawnDue()) then 0.0 else old(timeElapsed)) + elapsed
    {
      dt := elapsed;
      UpdateWords();
      SpawnIfDue(pick, width, y);
      timeElapsed := timeElapsed + dt;
    }

    /** The second half of a frame: words past the edge cost a life each,
        and no lives left ends the game with an empty screen. */
    method DropAndEnd(windowWidth: real)
      requires gameStatus == Active
      requires HighlightConsistent(wordsOnScreen, typedWord)
      modifies this`wordsOnScreen, this`lives, this`gameStatus
      ensures HighlightConsistent(wordsOnScreen, typedWord)
      ensures lives == old(lives) - OutCount(old(wordsOnScreen), windowWidth)
      ensures lives > 0 ==> gameStatus == Active && wordsOnScreen == Survivors(old(wordsOnScreen), windowWidth)
      ensures lives <= 0 ==> gameStatus == Ended && wordsOnScreen == []
    {
      RemoveOutOfBoundsWords(windowWidth);
      if lives <= 0 {
        gameStatus := Ended;
        wordsOnScreen := [];
      }
    }

    /** The spawn timer: when it has run out and lives remain, one word is
        added, the counter rises, the timer restarts, and every 15th word
        raises the difficulty. */
    method SpawnIfDue(pick: nat, width: real, y: real)
      requires SpawnDue() ==> pick < |wordList|
      requires spawnInterval >= MinInterval
      requires HighlightConsistent(wordsOnScreen, typedWord)
      modifies this`wordsOnScreen, this`wordCount, this`timeElapsed, this`speed, this`spawnInterval
      ensures spawnInterval >= MinInterval && speed >= old(speed)
      ensures HighlightConsistent(wordsOnScreen, typedWord)
      ensures !old(SpawnDue()) ==>
        && wordsOnScreen == old(wordsOnScreen) && wordCount == old(wordCount)
        && timeElapsed == old(timeElapsed) && Level(speed, spawnInterval) == Level(old(speed), old(spawnInterval))
      ensures old(SpawnDue()) ==>
        && wordsOnScreen == old(wordsOnScreen) + [NewWord(wordList[pick], width, y)]
        && wordCount == old(wordCount) + 1
        && timeElapsed == 0.0
        && Level(speed, spawnInterval) == Ramp(Level(old(speed), old(spawnInterval)), wordCount)
    {
      if timeElapsed >= spawnInterval {
        if lives > 0 {
          SpawnWord(pick, width, y);
          wordCount := wordCount + 1;
          timeElapsed := 0.0;
          ApplyRamp();
        }
      }
    }

    /** Every 15th word: speed up by 10, shorten the interval by 0.5, never
        below 0.5. */
    method ApplyRamp()
      requires spawnInterval >= MinInterval
      modifies this`speed, this`spawnInterval
      ensures Level(speed, spawnInterval) == Ramp(old(Level(speed, spawnInterval)), wordCount)
      ensures speed >= old(speed) && MinInterval <= spawnInterval <= old(spawnInterval)
    {
      RampMonotone(Level(speed, spawnInterval), wordCount);
      if wordCount % RampEvery == 0 {
        speed := speed + SpeedStep;
        spawnInterval := Max(spawnInterval - IntervalStep, MinInterval);
      }
    }

    /** Moves every word right by `speed * dt`. */
    method UpdateWords()
      requires HighlightConsistent(wordsOnScreen, typedWord)
      modifies this`wordsOnScreen
      ensures wordsOnScreen == Advance(old(wordsOnScreen), Displacement(speed, dt))
      ensures HighlightConsistent(wordsOnScreen, typedWord)
    {
      var step := Displacement(speed, dt);
      ghost var target := Advance(wordsOnScreen, step);
      var i := 0;
      while i < |wordsOnScreen|
        invariant 0 <= i <= |wordsOnScreen| == |old(wordsOnScreen)|
        invariant forall j :: 0 <= j < i ==> wordsOnScreen[j] == target[j]
        invariant typedWord == old(typedWord) && speed == old(speed) && dt == old(dt)
        invariant forall j :: i <= j < |wordsOnScreen| ==> wordsOnScreen[j] == old(wordsOnScreen)[j]
      {
        wordsOnScreen := wordsOnScreen[i := wordsOnScreen[i].(x := wordsOnScreen[i].x + step)];
        i := i + 1;
      }
      assert wordsOnScreen == target;
      AdvanceKeepsConsistent(old(wordsOnScreen), typedWord, step);
    }

    /** Appends the picked bank word, just off the left edge, at height `y`. */
    method SpawnWord(pick: nat, width: real, y: real)
      requires pick < |wordList|
      requires HighlightConsistent(wordsOnScreen, typedWord)
      modifies this`wordsOnScreen
      ensures wordsOnScreen == old(wordsOnScreen) + [NewWord(wordList[pick], width, y)]
      ensures HighlightConsistent(wordsOnScreen, typedWord)
    {
      AppendKeepsConsistent(wordsOnScreen, typedWord, NewWord(wordList[pick], width, y));
      var newWord := ActiveWord(wordList[pick], [], -width, y);
      wordsOnScreen := wordsOnScreen + [newWord];
    }

    /** Drops the words past the right edge, one life each, keeping the order
        of the others. */
    method RemoveOutOfBoundsWords(windowWidth: real)
      requires HighlightConsistent(wordsOnScreen, typedWord)
      modifies this`wordsOnScreen, this`lives
      ensures HighlightConsistent(wordsOnScreen, typedWord)
      ensures wordsOnScreen == Survivors(old(wordsOnScreen), windowWidth)
      ensures lives == old(lives) - OutCount(old(wordsOnScreen), windowWidth)
      ensures lives == old(lives) - (|old(wordsOnScreen)| - |wordsOnScreen|)
    {
      var kept := [];
      var i := 0;
      while i < |wordsOnScreen|
        invariant 0 <= i <= |wordsOnScreen|
        invariant wordsOnScreen == old(wordsOnScreen)
        invariant kept == Survivors(wordsOnScreen[..i], windowWidth)
        invariant lives == old(lives) - OutCount(wordsOnScreen[..i], windowWidth)
      {
        assert wordsOnScreen[..i + 1][..i] == wordsOnScreen[..i];
        if OutOfBounds(wordsOnScreen[i], windowWidth) {
          lives := lives - 1;
        } else {
          kept := kept + [wordsOnScreen[i]];
        }
        i := i + 1;
      }
      assert wordsOnScreen[..i] == wordsOnScreen;
      SurvivorsCount(wordsOnScreen, windowWidth);
      SurvivorsKeepConsistent(wordsOnScreen, typedWord, windowWidth);
      wordsOnScreen := kept;
    }

    // -------------------------------------------------------------
    // Status changes
    // -------------------------------------------------------------

    /** The Escape key toggles Active and Paused. */
    method PressEscape(clockElapsed: real)
      requires Valid()
      modifies this`gameStatus, this`paused, this`pausedTime, this`timeElapsed
      ensures Valid()
      ensures old(gameStatus) == Active ==>
        gameStatus == Paused && paused && pausedTime == clockElapsed && timeElapsed == old(timeElapsed)
      ensures old(gameStatus) == Paused ==>
        gameStatus == Active && !paused && pausedTime == old(pausedTime)
        && timeElapsed == old(timeElapsed) - old(pausedTime)
      ensures old(gameStatus) == Ended || old(gameStatus) == RestartMenu ==> unchanged(this)
    {
      if gameStatus == Active {
        gameStatus := Paused;
        paused := true;
        pausedTime := clockElapsed;
      } else if gameStatus == Paused {
        gameStatus := Active;
        paused := false;
        timeElapsed := timeElapsed - pausedTime;
      }
    }

    /** The pause button, live while the game is Active or Paused. */
    method PressPause(clockElapsed: real)
      requires Valid()
      modifies this`gameStatus, this`paused, this`pausedTime
      ensures Valid()
      ensures old(gameStatus) == Active || old(gameStatus) == Paused ==>
        gameStatus == Paused && paused && pausedTime == clockElapsed
      ensures old(gameStatus) == Ended || old(gameStatus) == RestartMenu ==> unchanged(this)
    {
      if gameStatus == Active || gameStatus == Paused {
        gameStatus := Paused;
        paused := true;
        pausedTime := clockElapsed;
      }
    }

    /** The resume button, live while the game is Active or Paused. */
    method PressResume()
      requires Valid()
      modifies this`gameStatus, this`paused, this`timeElapsed
      ensures Valid()
      ensures old(gameStatus) == Active || old(gameStatus) == Paused ==>
        gameStatus == Active && !paused && timeElapsed == old(timeElapsed) - pausedTime
      ensures old(gameStatus) == Ended || old(gameStatus) == RestartMenu ==> unchanged(this)
    {
      if gameStatus == Active || gameStatus == Paused {
        gameStatus := Active;
        paused := false;
        timeElapsed := timeElapsed - pausedTime;
      }
    }

    /** The restart hit-tests: the one tried while Active or Paused, whose
        rectangle is not drawn there but lies under the resume button once a
        game-over screen has sized it, and the button of the game-over
        screen once Ended. */
    method PressRestart()
      requires Valid()
      modifies this`gameStatus
      ensures Valid()
      ensures old(gameStatus) != RestartMenu ==> gameStatus == RestartMenu
      ensures old(gameStatus) == RestartMenu ==> unchanged(this)
    {
      if gameStatus != RestartMenu {
        Reset();
      }
    }

    /** Opens the restart menu and changes nothing else. */
    method Reset()
      requires Valid()
      modifies this`gameStatus
      ensures Valid()
      ensures gameStatus == RestartMenu
    {
      gameStatus := RestartMenu;
    }

    /** A click on topic option `option` of the restart menu. */
    method ChooseTopic(option: nat, tokens: seq<string>)
      requires Valid()
      requires option < |Assets.Topics|
      modifies this`selectedTopic, this`currentCategory, this`categoryFilePath, this`wordList
      ensures Valid()
      ensures old(gameStatus) == RestartMenu ==>
        && selectedTopic == Assets.Topics[option]
        && currentCategory == Assets.Topics[option]
        && categoryFilePath == Assets.CategoryPath(Assets.Topics[option])
        && wordList == old(wordList) + tokens
      ensures old(gameStatus) != RestartMenu ==> unchanged(this)
    {
      if gameStatus == RestartMenu {
        var optionText := Assets.TopicLabel(Assets.Topics[option]);
        var topic := Assets.SelectedTopic(optionText);
        Assets.SelectedTopicOfLabel(Assets.Topics[option]);
        selectedTopic := topic.value;
        SetCategory(selectedTopic, tokens);
      }
    }

    /** The confirm button of the restart menu, as written: it restarts the
        counters and reloads the bank, but leaves `paused` and
        `spawnInterval` as they were. */
    method ConfirmRestartAsWritten(tokens: seq<string>)
      requires Valid()
      modifies this`currentCategory, this`categoryFilePath, this`wordList, this`points
      modifies this`wordCount, this`timeElapsed, this`speed, this`lives
      modifies this`wordsOnScreen, this`typedWord, this`gameStatus
      ensures Valid()
      ensures old(gameStatus) == RestartMenu ==>
        && points == 0 && wordCount == 0 && timeElapsed == 0.0
        && speed == InitialSpeed && lives == ConfirmLives
        && wordsOnScreen == [] && typedWord == [] && gameStatus == Active
        && wordList == tokens
        && currentCategory == old(currentCategory)
        && categoryFilePath == Assets.CategoryPath(old(currentCategory))
      ensures spawnInterval == old(spawnInterval) && paused == old(paused)
      ensures old(gameStatus) != RestartMenu ==> unchanged(this)
    {
      if gameStatus == RestartMenu {
        SetCategory(currentCategory, tokens);
        points := 0;
        wordCount := 0;
        timeElapsed := 0.0;
        speed := InitialSpeed;
        lives := ConfirmLives;
        wordsOnScreen := [];
        typedWord := [];
        gameStatus := Active;
        wordList := [];
        assert Valid();
        SetCategory(currentCategory, tokens);
      }
    }

    /** The confirm button with `paused` cleared as well, so that the
        restarted game runs whatever screen the menu was opened from. */
    method ConfirmRestart(tokens: seq<string>)
      requires Valid()
      modifies this`currentCategory, this`categoryFilePath, this`wordList, this`points
      modifies this`wordCount, this`timeElapsed, this`speed, this`lives
      modifies this`wordsOnScreen, this`typedWord, this`gameStatus, this`paused
      ensures Valid()
      ensures old(gameStatus) == RestartMenu ==>
        && Running()
        && points == 0 && wordCount == 0 && timeElapsed == 0.0
        && speed == InitialSpeed && lives == ConfirmLives
        && wordsOnScreen == [] && typedWord == []
        && wordList == tokens
        && currentCategory == old(currentCategory)
        && categoryFilePath == Assets.CategoryPath(old(currentCategory))
      ensures spawnInterval == old(spawnInterval)
      ensures old(gameStatus) != RestartMenu ==> unchanged(this)
    {
      var fromMenu := gameStatus == RestartMenu;
      ConfirmRestartAsWritten(tokens);
      if fromMenu {
        paused := false;
      }
    }
  }

  /** As written: a restart clicked while paused, through the restart
      rectangle under the resume button, leaves a game that shows Active but
      whose ticks do nothing. Whether that rectangle has been sized by an
      earlier game over is not part of the state, so the game starts fresh. */
  method PausedRestartFreezes() returns (frozen: bool)
    ensures frozen
  {
    var g := new Game();
    g.PressEscape(0.0);
    assert g.gameStatus == Paused && g.paused;
    g.PressRestart();
    assert g.gameStatus == RestartMenu && g.paused;
    g.ConfirmRestartAsWritten(["cat"]);
    assert g.gameStatus == Active && g.paused && g.timeElapsed == 0.0 && g.wordCount == 0;
    g.UpdateGame(3.0, 0, 10.0, 0.0, 1200.0);
    assert g.gameStatus == Active && g.paused && g.timeElapsed == 0.0 && g.wordCount == 0;
    g.UpdateGame(3.0, 0, 10.0, 0.0, 1200.0);
    frozen := g.gameStatus == Active && g.paused && g.timeElapsed == 0.0 && g.wordCount == 0;
  }

  /** Corrected: the same restart gives a running game that spawns on time. */
  method PausedRestartRuns() returns (running: bool)
    ensures running
  {
    var g := new Game();
    g.PressEscape(0.0);
    g.PressRestart();
    g.ConfirmRestart(["cat"]);
    assert g.Running() && g.wordList == ["cat"] && g.timeElapsed == 0.0 && g.wordsOnScreen == [];
    g.UpdateGame(3.0, 0, 10.0, 0.0, 1200.0);
    assert g.Running() && g.timeElapsed == 3.0 && g.wordCount == 0 && g.wordsOnScreen == [];
    g.UpdateGame(3.0, 0, 10.0, 0.0, 1200.0);
    running := g.gameStatus == Active && !g.paused && g.timeElapsed == 3.0 && g.wordCount == 1;
  }

  /** A fresh game on a one-word bank, after two frames of 3 seconds each:
      the first frame starts the spawn timer, the second spawns the word. */
  method OneWordSpawned() returns (g: Game)
    ensures fresh(g) && g.Valid() && g.Running()
    ensures g.wordsOnScreen == [ActiveWord("cat", [], -10.0, 0.0)]
    ensures g.wordList == ["cat"] && g.typedWord == []
    ensures g.lives == 1 && g.timeElapsed == 3.0 && g.wordCount == 1
    ensures g.speed == InitialSpeed && g.spawnInterval == InitialSpawnInterval
  {
    g := new Game();
    g.SetCategory("Food", ["cat"]);
    g.UpdateGame(3.0, 0, 10.0, 0.0, 1200.0);
    assert g.wordsOnScreen == [] && g.timeElapsed == 3.0 && g.wordCount == 0;
    g.UpdateGame(3.0, 0, 10.0, 0.0, 1200.0);
  }

  /** Starting with one life: a word crossing the edge ends the game, clears
      the screen, and the next tick changes nothing. */
  method LastLifeEndsGame() returns (ended: bool)
    ensures ended
  {
    var g := OneWordSpawned();
    ghost var pool := [ActiveWord("cat", [], 1290.0, 0.0), ActiveWord("cat", [], -10.0, 0.0)];
    assert Displacement(100.0, 13.0) == 1300.0;
    assert Advance(g.wordsOnScreen, 1300.0) == pool[..1];
    assert NewWord("cat", 10.0, 0.0) == pool[1];
    assert pool == pool[..1] + [pool[1]];
    assert OutCount(pool, 1200.0) == 1 by {
      assert pool[..1] == [ActiveWord("cat", [], 1290.0, 0.0)];
      assert pool[..1][..0] == [];
    }
    g.UpdateGame(13.0, 0, 10.0, 0.0, 1200.0);
    assert g.lives == 0;
    assert g.gameStatus == Ended;
    var status, count := g.gameStatus, g.wordCount;
    g.UpdateGame(1.0, 0, 10.0, 0.0, 1200.0);
    ended := status == Ended && g.gameStatus == Ended && g.lives == 0 && g.wordsOnScreen == []
      && g.wordCount == count;
  }
}

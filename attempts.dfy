/** The per-(user, puzzle) attempt state of puzzle.c: `ensure_attempt_exists`,
    `puzzle_submit_guess` and `puzzle_reveal_hint` over the `puzzles` and
    `attempts` tables. The `attempts` table is a map keyed by (user id, puzzle
    id), which is its UNIQUE constraint; `lastId` is its AUTOINCREMENT counter. */
module PuzzleAttempts {
  import opened Common
  import opened PuzzleScore
  import PuzzleAnswer
  import ResultPage

  /** The columns of a `puzzles` row that the engine reads. `release` is 09:00
      UTC of the row's `puzzle_date` (None when the date does not parse); the
      hint column may be NULL. */
  datatype PuzzleRow = PuzzleRow(answer: string, release: Option<int>, hint: Option<string>)

  /** An `attempts` row. A NULL `score` reads as 0 and a NULL `completed_at`
      as None. */
  datatype Attempt = Attempt(
    id: int,
    incorrectGuesses: nat,
    hintUsed: bool,
    solved: bool,
    score: int,
    completedAt: Option<int>)

  /** The key of the UNIQUE(user_id, puzzle_id) constraint. */
  datatype Key = Key(user: int, puzzle: int)

  /** One guess: whether it matched and when it was made. */
  datatype Guess = Guess(correct: bool, at: int)

  /** The row `ensure_attempt_exists` inserts: no guesses, no hint, unsolved. */
  function NewAttempt(id: int): Attempt {
    Attempt(id, 0, false, false, 0, None)
  }

  /** What every row of the table looks like: a solved row carries its solve
      time and a floored score; an unsolved one has neither. */
  predicate WellFormed(a: Attempt) {
    a.id > 0 &&
    (a.solved <==> a.completedAt.Some?) &&
    (a.solved ==> a.score >= MinScore) &&
    (!a.solved ==> a.score == 0)
  }

  /** The effect of one guess on the row: a solved row is final; a correct
      guess solves it with the score earned at that time; a wrong one counts. */
  function Guessed(a: Attempt, g: Guess, release: Option<int>): Attempt {
    if a.solved then a
    else if g.correct then
      a.(solved := true, score := CalculateScore(g.at, release, a.incorrectGuesses, a.hintUsed), completedAt := Some(g.at))
    else a.(incorrectGuesses := a.incorrectGuesses + 1)
  }

  /** The effect of revealing the hint on the row. */
  function Hinted(a: Attempt): Attempt {
    a.(hintUsed := true)
  }

  /** A sequence of guesses, in order. */
  function Replay(a: Attempt, gs: seq<Guess>, release: Option<int>): Attempt
    decreases |gs|
  {
    if gs == [] then a else Replay(Guessed(a, gs[0], release), gs[1..], release)
  }

  /** Guesses keep a row well formed. */
  lemma GuessKeepsWellFormed(a: Attempt, g: Guess, release: Option<int>)
    requires WellFormed(a)
    ensures WellFormed(Guessed(a, g, release))
    ensures Guessed(a, g, release).id == a.id && Guessed(a, g, release).hintUsed == a.hintUsed
  {
  }

  /** A guess changes exactly one thing: a wrong guess on an unsolved row adds
      exactly one to the counter and nothing else; a correct one sets the
      solved flag, score and time and leaves the counters alone; on a solved
      row nothing changes. */
  lemma GuessEffect(a: Attempt, g: Guess, release: Option<int>)
    ensures var r := Guessed(a, g, release);
      (a.solved ==> r == a) &&
      (!a.solved && !g.correct ==> r.incorrectGuesses == a.incorrectGuesses + 1 && r.(incorrectGuesses := a.incorrectGuesses) == a) &&
      (!a.solved && g.correct ==>
         r.solved && r.incorrectGuesses == a.incorrectGuesses && r.hintUsed == a.hintUsed &&
         r.score == CalculateScore(g.at, release, a.incorrectGuesses, a.hintUsed))
  {
  }

  /** Revealing the hint keeps a row well formed, is idempotent and leaves the
      counter, the solved flag, the score and the solve time unchanged. */
  lemma HintEffect(a: Attempt)
    requires WellFormed(a)
    ensures WellFormed(Hinted(a)) && Hinted(Hinted(a)) == Hinted(a)
    ensures Hinted(a).hintUsed && Hinted(a).(hintUsed := a.hintUsed) == a
  {
  }

  /** Once solved, any further guesses change nothing. */
  lemma {:induction false} SolvedIsFinal(a: Attempt, gs: seq<Guess>, release: Option<int>)
    requires a.solved
    ensures Replay(a, gs, release) == a
    decreases |gs|
  {
    if gs != [] {
      SolvedIsFinal(Guessed(a, gs[0], release), gs[1..], release);
    }
  }

  /** Wrong guesses only: the row stays unsolved and counts every one. */
  lemma {:induction false} ReplayAllWrong(a: Attempt, gs: seq<Guess>, release: Option<int>)
    requires !a.solved && forall j :: 0 <= j < |gs| ==> !gs[j].correct
    ensures Replay(a, gs, release) == a.(incorrectGuesses := a.incorrectGuesses + |gs|)
    decreases |gs|
  {
    if gs != [] {
      ReplayAllWrong(Guessed(a, gs[0], release), gs[1..], release);
    }
  }

  /** The first correct guess decides the row: it is solved at that guess's
      time, with the score for the wrong guesses made before it, and whatever
      comes after is ignored. */
  lemma {:induction false} ReplayFirstCorrect(a: Attempt, gs: seq<Guess>, i: nat, release: Option<int>)
    requires !a.solved && i < |gs| && gs[i].correct
    requires forall j :: 0 <= j < i ==> !gs[j].correct
    ensures Replay(a, gs, release) ==
      a.(incorrectGuesses := a.incorrectGuesses + i, solved := true,
         score := CalculateScore(gs[i].at, release, a.incorrectGuesses + i, a.hintUsed),
         completedAt := Some(gs[i].at))
    decreases i
  {
    var b := Guessed(a, gs[0], release);
    if i == 0 {
      SolvedIsFinal(b, gs[1..], release);
    } else {
      assert forall j :: 0 <= j < i - 1 ==> !gs[1..][j].correct by {
        forall j | 0 <= j < i - 1 ensures !gs[1..][j].correct {
          assert gs[1..][j] == gs[j + 1];
        }
      }
      ReplayFirstCorrect(b, gs[1..], i - 1, release);
    }
  }

  /** As written, a hint revealed after the solve still sets `hint_used`, and
      the result page adds its penalty back: solved 15 minutes after release
      with no penalties (score 90, "10-30 min"), then hinted, the page rebuilds
      a base of 100 and says "within 10 min". */
  lemma HintAfterSolveShowsFasterBracket(release: int)
    ensures var t := release + 15 * 60;
      var solved := Guessed(NewAttempt(1), Guess(true, t), Some(release));
      var shown := Hinted(solved);
      solved.score == 90 &&
      ResultPage.TimeLabel(ResultPage.ReconstructedBase(solved.score, solved.incorrectGuesses, solved.hintUsed)) == "10-30 min" &&
      ResultPage.TimeLabel(ResultPage.ReconstructedBase(shown.score, shown.incorrectGuesses, shown.hintUsed)) == "within 10 min" &&
      ResultPage.SolveTimeLabel(shown.completedAt.value, release) == "10-30 min"
  {
    assert ElapsedMinutes(release + 15 * 60, release) == 15;
  }

  /** Every row well formed, ids unique and none above the counter. */
  ghost predicate ValidTable(t: map<Key, Attempt>, lastId: int) {
    lastId >= 0 &&
    (forall k :: k in t ==> WellFormed(t[k]) && t[k].id <= lastId) &&
    (forall k1, k2 :: k1 in t && k2 in t && t[k1].id == t[k2].id ==> k1 == k2)
  }

  /** Rewriting a row in place, keeping its id, keeps the table valid. */
  lemma UpdateKeepsValid(t: map<Key, Attempt>, lastId: int, k: Key, a: Attempt)
    requires ValidTable(t, lastId) && k in t && WellFormed(a) && a.id == t[k].id
    ensures ValidTable(t[k := a], lastId)
  {
  }

  /** Writing a key twice keeps only the second value. */
  lemma OverwriteTwice(t: map<Key, Attempt>, k: Key, a: Attempt, b: Attempt)
    ensures t[k := a][k := b] == t[k := b]
  {
  }

  /** The outcome `puzzle_submit_guess` reports. */
  datatype SubmitResult = Failed | Wrong | Solved(score: int)

  /** The tables the attempt code reads and writes. */
  class AttemptStore {
    const puzzles: map<int, PuzzleRow>
    var attempts: map<Key, Attempt>
    var lastId: int

    ghost predicate Valid()
      reads this
    {
      ValidTable(attempts, lastId)
    }

    /** A fresh database with the given puzzles and no attempts. */
    constructor (puzzles: map<int, PuzzleRow>)
      ensures Valid() && this.puzzles == puzzles && attempts == map[] && lastId == 0
    {
      this.puzzles := puzzles;
      attempts := map[];
      lastId := 0;
    }

    /** The row a call works on: the existing one, or the one it inserts. */
    function Current(k: Key): Attempt
      reads this
    {
      if k in attempts then attempts[k] else NewAttempt(lastId + 1)
    }

    /** `ensure_attempt_exists` for the users in `users` (the rows of the
        `users` table): returns the id of the (user, puzzle) row, inserting an
        empty one with the next id when there is none. The insert is refused
        with -1, writing nothing, when the user has no row (the foreign key on
        `attempts.user_id`). */
    method EnsureAttempt(k: Key, users: set<int>) returns (id: int)
      requires Valid()
      modifies this
      ensures Valid()
      ensures k in old(attempts) ==> attempts == old(attempts) && id == attempts[k].id && lastId == old(lastId)
      ensures k !in old(attempts) && k.user in users ==>
        id == lastId && lastId == old(lastId) + 1 && attempts == old(attempts)[k := NewAttempt(lastId)]
      ensures k !in old(attempts) && k.user !in users ==>
        id == -1 && attempts == old(attempts) && lastId == old(lastId)
      ensures id != -1 ==> k in attempts && id == attempts[k].id && attempts == old(attempts)[k := old(Current(k))]
    {
      if k in attempts {
        return attempts[k].id;
      }
      if k.user !in users {
        return -1;
      }
      lastId := lastId + 1;
      attempts := attempts[k := NewAttempt(lastId)];
      id := lastId;
    }

    /** The update half of `puzzle_submit_guess`, on a row that exists. */
    method ApplyGuess(k: Key, g: Guess, release: Option<int>) returns (r: SubmitResult)
      requires Valid() && k in attempts
      modifies this
      ensures Valid() && lastId == old(lastId)
      ensures attempts == old(attempts)[k := Guessed(old(attempts[k]), g, release)]
      ensures r != Failed && (r.Solved? <==> attempts[k].solved)
      ensures r.Solved? ==> r.score == attempts[k].score
    {
      var attempt := attempts[k];
      GuessKeepsWellFormed(attempt, g, release);
      UpdateKeepsValid(attempts, lastId, k, Guessed(attempt, g, release));
      if attempt.solved {
        return Solved(attempt.score);
      }
      if g.correct {
        var score := CalculateScore(g.at, release, attempt.incorrectGuesses, attempt.hintUsed);
        attempts := attempts[k := attempt.(solved := true, score := score, completedAt := Some(g.at))];
        r := Solved(score);
      } else {
        attempts := attempts[k := attempt.(incorrectGuesses := attempt.incorrectGuesses + 1)];
        r := Wrong;
      }
    }

    /** `puzzle_submit_guess` at time `now`. A missing guess or puzzle fails
        before anything is written, and so does a first guess by a user
        without a `users` row. Otherwise the row exists afterwards, and it is
        the old (or freshly inserted) row after this guess: `Solved` with the
        stored score when it was already solved or the guess matches the
        stored answer (as copied into its 256-byte buffer), `Wrong` with one
        more incorrect guess otherwise. */
    method SubmitGuess(k: Key, guess: Option<string>, now: int, users: set<int>) returns (r: SubmitResult)
      requires Valid()
      modifies this
      ensures Valid()
      ensures guess.None? || k.puzzle !in puzzles || (k !in old(attempts) && k.user !in users) ==>
        r == Failed && attempts == old(attempts) && lastId == old(lastId)
      ensures guess.Some? && k.puzzle in puzzles && (k in old(attempts) || k.user in users) ==>
        attempts == old(attempts)[k := Guessed(old(Current(k)), Guess(Matches(k.puzzle, guess.value), now), puzzles[k.puzzle].release)]
      ensures guess.Some? && k.puzzle in puzzles && (k in old(attempts) || k.user in users) ==>
        r != Failed && (r.Solved? <==> attempts[k].solved) && (r.Solved? ==> r.score == attempts[k].score)
      ensures k in old(attempts) || r == Failed ==> lastId == old(lastId)
      ensures k !in old(attempts) && r != Failed ==> lastId == old(lastId) + 1
    {
      if guess.None? || k.puzzle !in puzzles {
        return Failed;
      }
      var correct := Matches(k.puzzle, guess.value);
      ghost var t, cur := attempts, Current(k);
      var id := EnsureAttempt(k, users);
      if id < 0 {
        return Failed;
      }
      var g, release := Guess(correct, now), puzzles[k.puzzle].release;
      r := ApplyGuess(k, g, release);
      OverwriteTwice(t, k, cur, Guessed(cur, g, release));
    }

    /** `check_answer` against the puzzle's answer as copied into its 256-byte
        buffer. */
    predicate Matches(puzzle: int, guess: string)
      requires puzzle in puzzles
    {
      PuzzleAnswer.CheckAnswer(guess, Truncate(puzzles[puzzle].answer, 255))
    }

    /** `puzzle_reveal_hint` into a buffer of `hintSize` bytes. An empty
        buffer, a missing puzzle and a NULL or empty hint fail before anything
        is written. Otherwise the hint is copied out, truncated to the buffer;
        the call then fails, with no row written, for a first use by a user
        without a `users` row, and otherwise the (user, puzzle) row exists
        with `hint_used` set and nothing else changed. */
    method RevealHint(k: Key, hintSize: nat, users: set<int>) returns (rc: int, hint: string)
      requires Valid()
      modifies this
      ensures Valid()
      ensures hintSize == 0 || k.puzzle !in puzzles || puzzles[k.puzzle].hint.None? || puzzles[k.puzzle].hint.value == [] ==>
        rc == -1 && attempts == old(attempts) && lastId == old(lastId)
      ensures hintSize > 0 && k.puzzle in puzzles && puzzles[k.puzzle].hint.Some? && puzzles[k.puzzle].hint.value != [] ==>
        hint == Truncate(puzzles[k.puzzle].hint.value, hintSize - 1) &&
        (k !in old(attempts) && k.user !in users ==> rc == -1 && attempts == old(attempts) && lastId == old(lastId)) &&
        (k in old(attempts) || k.user in users ==> rc == 0 && attempts == old(attempts)[k := Hinted(old(Current(k)))])
      ensures k in old(attempts) || rc != 0 ==> lastId == old(lastId)
      ensures k !in old(attempts) && rc == 0 ==> lastId == old(lastId) + 1
    {
      hint := [];
      if hintSize == 0 || k.puzzle !in puzzles {
        return -1, hint;
      }
      var stored := puzzles[k.puzzle].hint;
      if stored.None? || stored.value == [] {
        return -1, hint;
      }
      hint := Truncate(stored.value, hintSize - 1);
      ghost var t, cur := attempts, Current(k);
      var id := EnsureAttempt(k, users);
      if id < 0 {
        return -1, hint;
      }
      HintEffect(attempts[k]);
      UpdateKeepsValid(attempts, lastId, k, Hinted(attempts[k]));
      attempts := attempts[k := attempts[k].(hintUsed := true)];
      OverwriteTwice(t, k, cur, Hinted(cur));
      rc := 0;
    }
  }
}

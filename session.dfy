/**
 * A game session: the two timers and the input handlers interleave on one
 * event loop, so a session is a sequence of events applied in order.
 */
module SnakeSession {
  import opened SnakeRules
  import opened SnakeProperties

  /**
   * A tick of the main loop (with the random picks it makes), the food
   * timer firing, a key press, or the "play again" / "back to start" button.
   */
  datatype Event =
    | TickEvent(xi: nat, yi: nat, ci: nat)
    | ClearFoodEvent
    | KeyEvent(key: string)
    | RestartEvent

  /** The random picks of a tick are indices into the candidate list and the palette. */
  predicate Admissible(e: Event) {
    e.TickEvent? ==> e.xi < CandidateCount && e.yi < CandidateCount && e.ci < ColourCount
  }

  predicate AllAdmissible(evs: seq<Event>) {
    forall i :: 0 <= i < |evs| ==> Admissible(evs[i])
  }

  function Apply(st: GameState, e: Event): (r: GameState)
    requires |st.snake| >= 1 && Admissible(e)
    ensures |r.snake| >= 1
  {
    match e
    case TickEvent(xi, yi, ci) => TickStep(st, xi, yi, ci)
    case ClearFoodEvent => ClearFoodStep(st)
    case KeyEvent(key) => KeyStep(st, key)
    case RestartEvent => RestartStep(st)
  }

  function Run(st: GameState, evs: seq<Event>): GameState
    requires |st.snake| >= 1 && AllAdmissible(evs)
    decreases |evs|
  {
    if evs == [] then st else Run(Apply(st, evs[0]), evs[1..])
  }

  /** The score after each event of the session. */
  function ScoresSeen(st: GameState, evs: seq<Event>): (scores: seq<int>)
    requires |st.snake| >= 1 && AllAdmissible(evs)
    ensures |scores| == |evs|
    ensures evs != [] ==> scores[|evs| - 1] == Run(st, evs).score
    decreases |evs|
  {
    if evs == [] then [] else [Apply(st, evs[0]).score] + ScoresSeen(Apply(st, evs[0]), evs[1..])
  }

  /** The largest of h and the scores. */
  function MaxSeen(h: int, scores: seq<int>): (m: int)
    ensures m >= h
    ensures forall i :: 0 <= i < |scores| ==> m >= scores[i]
    ensures m == h || m in scores
    decreases |scores|
  {
    if scores == [] then h else MaxSeen(Max(h, scores[0]), scores[1..])
  }

  /** Every event keeps the state invariant. */
  lemma ApplyPreservesInvariant(st: GameState, e: Event)
    requires Invariant(st) && Admissible(e)
    ensures Invariant(Apply(st, e))
  {
    if e.TickEvent? {
      TickPreservesInvariant(st, e.xi, e.yi, e.ci);
    }
  }

  lemma {:induction false} RunPreservesInvariant(st: GameState, evs: seq<Event>)
    requires Invariant(st) && AllAdmissible(evs)
    ensures Invariant(Run(st, evs))
    decreases |evs|
  {
    if evs != [] {
      ApplyPreservesInvariant(st, evs[0]);
      RunPreservesInvariant(Apply(st, evs[0]), evs[1..]);
    }
  }

  /** After any event the high score is the larger of the old high score and the new score. */
  lemma HighScoreFollowsScore(st: GameState, e: Event)
    requires Invariant(st) && Admissible(e)
    ensures Apply(st, e).highScore == Max(st.highScore, Apply(st, e).score)
  {
    if e.TickEvent? {
      TickEffect(st, e.xi, e.yi, e.ci);
    }
  }

  /**
   * The high score at the end of a session is the largest score ever
   * observed in it (or the stored high score if that is larger); restarts
   * in between do not lower it.
   */
  lemma {:induction false} HighScoreIsPeak(st: GameState, evs: seq<Event>)
    requires Invariant(st) && AllAdmissible(evs)
    ensures Run(st, evs).highScore == MaxSeen(st.highScore, ScoresSeen(st, evs))
    decreases |evs|
  {
    if evs != [] {
      var next := Apply(st, evs[0]);
      HighScoreFollowsScore(st, evs[0]);
      ApplyPreservesInvariant(st, evs[0]);
      HighScoreIsPeak(next, evs[1..]);
      var scores := ScoresSeen(st, evs);
      assert scores[0] == next.score && scores[1..] == ScoresSeen(next, evs[1..]);
    }
  }

  /** The high score never decreases over a session. */
  lemma {:induction false} HighScoreNeverDecreases(st: GameState, evs: seq<Event>)
    requires Invariant(st) && AllAdmissible(evs)
    ensures Run(st, evs).highScore >= st.highScore
    ensures Run(st, evs).highScore >= Run(st, evs).score
  {
    HighScoreIsPeak(st, evs);
    RunPreservesInvariant(st, evs);
  }

  /** Events that neither press a key nor restart: ticks and the food timer. */
  predicate WithoutInput(evs: seq<Event>) {
    forall i :: 0 <= i < |evs| ==> evs[i].TickEvent? || evs[i].ClearFoodEvent?
  }

  /** One tick or food-timer firing while the direction is cleared. */
  lemma IdleEvent(st: GameState, e: Event)
    requires |st.snake| >= 1 && st.direction.None?
    requires Admissible(e) && (e.TickEvent? || e.ClearFoodEvent?)
    ensures var next := Apply(st, e);
            next.direction.None? && next.score >= st.score &&
            (next.snake == st.snake || next.snake == st.snake + [Head(st.snake)])
  {
    if e.TickEvent? {
      IdleTick(st, e.xi, e.yi, e.ci);
    }
  }

  /**
   * Once the direction is cleared (before the first key, or by game over),
   * the snake stays where it is until a key is pressed: it keeps its
   * segments and can only grow by copies of its head, when food appears
   * under it; the score does not fall.
   */
  lemma {:induction false} FrozenUntilKey(st: GameState, evs: seq<Event>)
    requires |st.snake| >= 1 && st.direction.None?
    requires AllAdmissible(evs) && WithoutInput(evs)
    ensures var r := Run(st, evs);
            r.direction.None? &&
            |r.snake| >= |st.snake| && r.snake[..|st.snake|] == st.snake &&
            (forall i :: |st.snake| <= i < |r.snake| ==> r.snake[i] == Head(st.snake)) &&
            r.score >= st.score
    decreases |evs|
  {
    if evs != [] {
      var next := Apply(st, evs[0]);
      IdleEvent(st, evs[0]);
      assert Head(next.snake) == Head(st.snake);
      assert AllAdmissible(evs[1..]) && WithoutInput(evs[1..]);
      FrozenUntilKey(next, evs[1..]);
      var r := Run(next, evs[1..]);
      assert r == Run(st, evs);
      assert r.snake[..|st.snake|] == next.snake[..|st.snake|] == st.snake;
      forall i | |st.snake| <= i < |r.snake|
        ensures r.snake[i] == Head(st.snake)
      {
        if i < |next.snake| {
          assert r.snake[i] == next.snake[i];
        }
      }
    }
  }
}

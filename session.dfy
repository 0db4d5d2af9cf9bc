/** The per-game state that both main loops keep in local variables: the
    fruit list, the countdown, the attempts left, and whether the game is over
    or won. The float countdown `time_remaining` (60, minus 1/60 per frame) is
    kept as a whole number of frames. */
module Session {
  import opened Grid
  import opened Fruits

  /** Frames per attempt: 60 time units of 60 frames each. */
  const START_TICKS: int := 3600
  const START_ATTEMPTS: int := 3
  /** Fruits per batch: `generate_fruits(10)`. */
  const BATCH_SIZE: nat := 10

  /** Playing, or the end reached: "Game Over" or "GANASTE!!!!". */
  datatype Status = Playing | GameOver | Won

  datatype State = State(fruits: seq<Fruit>, ticksLeft: int, attempts: int, status: Status)

  /** The state main starts from, given the first batch. */
  function Initial(fruits: seq<Fruit>): State {
    State(fruits, START_TICKS, START_ATTEMPTS, Playing)
  }

  /** Facts that hold of every state the loop reaches: fruits on the grid, a
      countdown between 1 frame and a full attempt, and at least one attempt
      left while playing. */
  ghost predicate Sane(s: State) {
    && (forall f :: f in s.fruits ==> InBounds(f.pos))
    && 1 <= s.ticksLeft <= START_TICKS
    && 0 <= s.attempts <= START_ATTEMPTS
    && (s.status == Playing ==> s.attempts >= 1)
  }

  /** The end of one frame: one frame less on the clock. A timeout costs
      exactly one attempt and restarts the clock, then either ends the game
      (no attempt left) or replaces the fruits with the new batch. Only
      without a timeout does an empty fruit list win, so the timeout takes
      precedence. A sane state stays sane when the new batch is on the grid. */
  function Countdown(s: State, batch: seq<Fruit>): (t: State)
    requires s.status == Playing
    ensures s.ticksLeft <= 1 ==> t.attempts == s.attempts - 1 && t.ticksLeft == START_TICKS
    ensures s.ticksLeft > 1 ==> t.attempts == s.attempts && t.ticksLeft == s.ticksLeft - 1
    ensures t.status == Won <==> s.ticksLeft > 1 && s.fruits == []
    ensures t.status == GameOver <==> s.ticksLeft <= 1 && s.attempts <= 1
    ensures t.fruits == if s.ticksLeft <= 1 && t.status == Playing then batch else s.fruits
    ensures Sane(s) && (forall f :: f in batch ==> InBounds(f.pos)) ==> Sane(t)
  {
    var ticks := s.ticksLeft - 1;
    if ticks <= 0 then
      var attempts := s.attempts - 1;
      if attempts <= 0 then State(s.fruits, START_TICKS, attempts, GameOver)
      else State(batch, START_TICKS, attempts, Playing)
    else if s.fruits == [] then State(s.fruits, ticks, s.attempts, Won)
    else State(s.fruits, ticks, s.attempts, Playing)
  }

  /** `n` frames in which nothing is collected, stopping once the game ends. */
  function Idle(s: State, batch: seq<Fruit>, n: nat): State
    decreases n
  {
    if n == 0 || s.status != Playing then s else Idle(Countdown(s, batch), batch, n - 1)
  }

  /** Frames left until the last attempt runs out. */
  function FramesLeft(s: State): int {
    s.ticksLeft + (s.attempts - 1) * START_TICKS
  }

  /** A game in which nothing is collected lasts exactly FramesLeft frames and
      then ends in GameOver, whatever batches are regenerated on the way. */
  lemma {:induction false} IdleRunsOut(s: State, batch: seq<Fruit>, n: nat)
    requires Sane(s) && s.status == Playing && s.fruits != [] && batch != []
    requires forall f :: f in batch ==> InBounds(f.pos)
    ensures Idle(s, batch, n).status == if n < FramesLeft(s) then Playing else GameOver
    decreases n
  {
    if n > 0 {
      var t := Countdown(s, batch);
      if t.status == Playing {
        assert FramesLeft(t) == FramesLeft(s) - 1;
        IdleRunsOut(t, batch, n - 1);
      } else {
        assert Idle(t, batch, n - 1) == t;
      }
    }
  }

  /** With three attempts of 3600 frames, a game where nothing is collected is
      still on after 10799 frames and over after 10800. */
  lemma NewGameLastsThreeAttempts(fruits: seq<Fruit>, batch: seq<Fruit>)
    requires fruits != [] && batch != []
    requires forall f :: f in fruits ==> InBounds(f.pos)
    requires forall f :: f in batch ==> InBounds(f.pos)
    ensures Idle(Initial(fruits), batch, 3 * START_TICKS - 1).status == Playing
    ensures Idle(Initial(fruits), batch, 3 * START_TICKS).status == GameOver
  {
    IdleRunsOut(Initial(fruits), batch, 3 * START_TICKS - 1);
    IdleRunsOut(Initial(fruits), batch, 3 * START_TICKS);
  }

  /** The session's local variables in main, as one object the frame updates. */
  class Session {
    var fruits: seq<Fruit>
    var ticksLeft: int
    var attempts: int
    var status: Status

    function Current(): State
      reads this
    {
      State(fruits, ticksLeft, attempts, status)
    }

    ghost predicate Valid()
      reads this
    {
      Sane(Current())
    }

    /** `fruits = generate_fruits(10)`, `time_remaining = 60`,
        `attempts_remaining = 3`. */
    constructor (draws: seq<Draw>)
      requires |draws| == BATCH_SIZE && forall d :: d in draws ==> ValidDraw(d)
      ensures Current() == Initial(Spawn(draws)) && Valid()
    {
      var batch := GenerateFruits(BATCH_SIZE, draws);
      fruits := batch;
      ticksLeft := START_TICKS;
      attempts := START_ATTEMPTS;
      status := Playing;
    }

    /** The collection loop over this session's fruit list: the fruits on
        `at` leave the list and their values are returned. */
    method Collect(at: Cell) returns (gained: nat)
      modifies this
      ensures fruits == Uneaten(old(fruits), at)
      ensures gained == TotalValue(Eaten(old(fruits), at))
      ensures ticksLeft == old(ticksLeft) && attempts == old(attempts) && status == old(status)
      ensures old(Valid()) ==> Valid()
    {
      CollectMembership(fruits, at);
      fruits, gained := CollectAt(fruits, at);
    }

    /** The end of a frame in main: the countdown, the timeout and attempt
        bookkeeping, the regeneration of fruits from `draws`, and the win check. */
    method EndOfTick(draws: seq<Draw>)
      requires status == Playing
      requires |draws| == BATCH_SIZE && forall d :: d in draws ==> ValidDraw(d)
      modifies this
      ensures Current() == Countdown(old(Current()), Spawn(draws))
      ensures old(Valid()) ==> Valid()
    {
      ticksLeft := ticksLeft - 1;
      if ticksLeft <= 0 {
        attempts := attempts - 1;
        ticksLeft := START_TICKS;
        if attempts <= 0 {
          status := GameOver;
        } else {
          fruits := GenerateFruits(BATCH_SIZE, draws);
        }
      } else if fruits == [] {
        status := Won;
      }
      ghost var batch := Spawn(draws);
      assert forall f :: f in batch ==> InBounds(f.pos) by {
        forall f | f in batch ensures InBounds(f.pos) {
          var k :| 0 <= k < |batch| && batch[k] == f;
          assert draws[k] in draws;
        }
      }
    }
  }
}

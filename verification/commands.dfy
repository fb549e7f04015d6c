/**
 The simulator's state and the user commands that act on it.

 A game holds the grid, its check list, the parsed rule, the pause flag and
 the countdown to the next step. The keys `p` (pause or resume), `c` (clear)
 and `n` (reseed) change this state between frames; each frame the countdown
 is advanced and, when it has run out and the game is not paused, one sparse
 step is taken.

 The invariant that makes the sparse step correct is `Ready`: while the game
 runs, the check list covers the grid. Pausing suspends it (cells may be
 drawn freely while paused) and resuming rebuilds the check list from
 scratch. Reseeding replaces the grid without rebuilding the check list,
 which breaks the invariant while the game runs: `Handle` and `Play` dispatch
 the keys as the program does and keep a game ready only when every reseed
 happens while paused. `ReseedRebuilt` is the corrected command, and
 `HandleRebuilt` and `PlayRebuilt` the event loop that uses it and keeps any
 game ready.
 */
module Commands {
  import opened Torus
  import opened RuleText
  import opened Engine

  /** The time between steps, in milliseconds (a quarter of a second). */
  const StepTime: int := 250

  datatype Game = Game(m: int, n: int, rule: Rule, grid: Grid, checkList: set<Pos>,
                       paused: bool, timer: int)

  /** The shape facts every game keeps. */
  predicate WellFormed(game: Game) {
    Shaped(game.grid, game.m, game.n) && Within(game.checkList, game.m, game.n)
  }

  /** A running game's check list covers its grid. */
  ghost predicate Ready(game: Game) {
    WellFormed(game) && (game.paused || Covers(game.grid, game.m, game.n, game.checkList))
  }

  /** A new game on the initial grid `initial` (random or all dead, drawn by
      the caller) with the rule given as text: the rule is parsed, the check
      list built from scratch, and the game starts running with a full
      countdown. A malformed rule is the parser's error. */
  function NewGame(text: string, initial: Grid): (r: Result<Game>)
    requires |initial| > 0 && Shaped(initial, |initial|, |initial[0]|)
    ensures r.Ok? <==> ParseRule(text).Ok?
    ensures r.Err? ==> r.error == ParseRule(text).error
    ensures r.Ok? ==>
              var game := r.value;
              game.rule == ParseRule(text).value && game.grid == initial &&
              game.m == |initial| && game.n == |initial[0]| &&
              game.checkList == InitialCheckList(initial, game.m, game.n) &&
              !game.paused && game.timer == StepTime
  {
    match ParseRule(text)
    case Err(e) => Err(e)
    case Ok(rule) =>
      var m, n := |initial|, |initial[0]|;
      Ok(Game(m, n, rule, initial, InitialCheckList(initial, m, n), false, StepTime))
  }

  /** A new game is ready. */
  lemma NewGameReady(text: string, initial: Grid)
    requires |initial| > 0 && Shaped(initial, |initial|, |initial[0]|)
    ensures NewGame(text, initial).Ok? ==> Ready(NewGame(text, initial).value)
  {
    if NewGame(text, initial).Ok? {
      InitialCheckListCovers(initial, |initial|, |initial[0]|);
    }
  }

  /** Key `p`: pausing keeps the check list; resuming rebuilds it from the
      grid, which may have been drawn on while paused. */
  function TogglePause(game: Game): (r: Game)
    requires WellFormed(game)
    ensures r.paused == !game.paused
    ensures r.grid == game.grid && r.rule == game.rule && r.timer == game.timer
    ensures r.m == game.m && r.n == game.n
    ensures game.paused ==> r.checkList == InitialCheckList(game.grid, game.m, game.n)
    ensures !game.paused ==> r.checkList == game.checkList
  {
    if game.paused then
      game.(checkList := InitialCheckList(game.grid, game.m, game.n), paused := false)
    else
      game.(paused := true)
  }

  /** Pausing and resuming keep a game ready, whatever its grid was while
      paused. */
  lemma TogglePauseReady(game: Game)
    requires WellFormed(game)
    ensures Ready(TogglePause(game))
  {
    if game.paused {
      InitialCheckListCovers(game.grid, game.m, game.n);
    }
  }

  /** Key `c`: every cell is set dead; the check list and the rest stay. */
  function Clear(game: Game): (r: Game)
    requires WellFormed(game)
    ensures WellFormed(r)
    ensures forall p :: InRange(game.m, game.n, p) ==> !Live(r.grid, p)
    ensures r.checkList == game.checkList && r.paused == game.paused
    ensures r.rule == game.rule && r.timer == game.timer && r.m == game.m && r.n == game.n
  {
    game.(grid := Dead(game.m, game.n))
  }

  /** Any check list covers the all-dead grid. */
  lemma DeadCovered(m: int, n: int, cl: set<Pos>)
    requires m > 0 && n > 0
    ensures Covers(Dead(m, n), m, n, cl)
  {
    forall q | InRange(m, n, q)
      ensures !Active(Dead(m, n), m, n, q)
    {
    }
  }

  /** Clearing keeps a game ready. */
  lemma ClearReady(game: Game)
    requires Ready(game)
    ensures Ready(Clear(game))
  {
    DeadCovered(game.m, game.n, game.checkList);
  }

  /** Key `n` as written: the grid is replaced by `seed` (drawn by the
      caller) and the check list is left as it was. */
  function Reseed(game: Game, seed: Grid): (r: Game)
    requires WellFormed(game) && Shaped(seed, game.m, game.n)
    ensures WellFormed(r) && r.grid == seed && r.checkList == game.checkList
    ensures r.paused == game.paused && r.rule == game.rule && r.timer == game.timer
  {
    game.(grid := seed)
  }

  /** Reseeding while paused is harmless: resuming rebuilds the check list. */
  lemma ReseedWhilePausedReady(game: Game, seed: Grid)
    requires Ready(game) && game.paused && Shaped(seed, game.m, game.n)
    ensures Ready(Reseed(game, seed))
    ensures Ready(TogglePause(Reseed(game, seed)))
  {
    TogglePauseReady(Reseed(game, seed));
  }

  /** Key `n` corrected: the grid is replaced by `seed` and the check list
      rebuilt from it, as resuming does. */
  function ReseedRebuilt(game: Game, seed: Grid): (r: Game)
    requires WellFormed(game) && Shaped(seed, game.m, game.n)
    ensures WellFormed(r) && r.grid == seed
    ensures r.checkList == InitialCheckList(seed, game.m, game.n)
    ensures r.paused == game.paused && r.rule == game.rule && r.timer == game.timer
  {
    game.(grid := seed, checkList := InitialCheckList(seed, game.m, game.n))
  }

  /** The corrected reseed keeps any game ready, running or paused. */
  lemma ReseedRebuiltReady(game: Game, seed: Grid)
    requires WellFormed(game) && Shaped(seed, game.m, game.n)
    ensures Ready(ReseedRebuilt(game, seed))
  {
    InitialCheckListCovers(seed, game.m, game.n);
  }

  /** One frame, `elapsed` milliseconds after the previous one. A paused game
      is left alone. A running game whose countdown has run out takes one
      sparse step and restarts the countdown; otherwise the countdown goes
      down by the elapsed time. */
  function Update(game: Game, elapsed: nat): (r: Game)
    requires WellFormed(game)
    ensures WellFormed(r)
    ensures r.m == game.m && r.n == game.n && r.rule == game.rule && r.paused == game.paused
    ensures game.paused ==> r == game
    ensures !game.paused && game.timer <= 0 ==>
              r.timer == StepTime &&
              r.grid == StepGrid(game.grid, game.m, game.n, game.rule, game.checkList) &&
              r.checkList == StepCheckList(game.grid, game.m, game.n, game.rule, game.checkList)
    ensures !game.paused && game.timer > 0 ==>
              r == game.(timer := game.timer - elapsed)
  {
    if game.paused then game
    else if game.timer <= 0 then
      var (g, m, n, rule, cl) := (game.grid, game.m, game.n, game.rule, game.checkList);
      game.(grid := StepGrid(g, m, n, rule, cl), checkList := StepCheckList(g, m, n, rule, cl),
            timer := StepTime)
    else
      game.(timer := game.timer - elapsed)
  }

  /** A frame keeps a game ready. */
  lemma UpdateReady(game: Game, elapsed: nat)
    requires Ready(game)
    ensures Ready(Update(game, elapsed))
  {
    if !game.paused && game.timer <= 0 {
      StepKeepsCovering(game.grid, game.m, game.n, game.rule, game.checkList);
    }
  }

  /** In a ready running game with no birth on count 0, a step taken by a
      frame is the dense step of the rule over the whole grid. */
  lemma UpdateIsDenseStep(game: Game, elapsed: nat)
    requires Ready(game) && !game.paused && game.timer <= 0 && 0 !in game.rule.birth
    ensures Update(game, elapsed).grid == DenseStep(game.grid, game.m, game.n, game.rule)
  {
    SparseMatchesDense(game.grid, game.m, game.n, game.rule, game.checkList);
  }

  /** The three keys the model covers. */
  datatype Command = PauseKey | ClearKey | ReseedKey(seed: Grid)

  /** What happens between frames: a key press or a frame of the given
      length in milliseconds. */
  datatype Event = Key(command: Command) | Frame(elapsed: nat)

  /** A reseed event's grid has the game's shape. */
  predicate Fits(event: Event, m: int, n: int) {
    event.Key? && event.command.ReseedKey? ==> Shaped(event.command.seed, m, n)
  }

  predicate Applicable(game: Game, event: Event) {
    WellFormed(game) && Fits(event, game.m, game.n)
  }

  /** One event, dispatched as the program does: the key `n` is the reseed as
      written. */
  function Handle(game: Game, event: Event): (r: Game)
    requires Applicable(game, event)
    ensures WellFormed(r) && r.m == game.m && r.n == game.n && r.rule == game.rule
    ensures event.Key? && event.command.ReseedKey? ==>
              r.grid == event.command.seed && r.checkList == game.checkList
  {
    match event
    case Frame(elapsed) => Update(game, elapsed)
    case Key(PauseKey) => TogglePause(game)
    case Key(ClearKey) => Clear(game)
    case Key(ReseedKey(seed)) => Reseed(game, seed)
  }

  /** The event is not a reseed of a running game. */
  predicate ReseedsWhilePaused(game: Game, event: Event) {
    event.Key? && event.command.ReseedKey? ==> game.paused
  }

  /** Every event keeps a ready game ready, provided a reseed happens only
      while paused. */
  lemma HandleReady(game: Game, event: Event)
    requires Ready(game) && Applicable(game, event) && ReseedsWhilePaused(game, event)
    ensures Ready(Handle(game, event))
  {
    match event
    case Frame(elapsed) => UpdateReady(game, elapsed);
    case Key(PauseKey) => TogglePauseReady(game);
    case Key(ClearKey) => ClearReady(game);
    case Key(ReseedKey(seed)) => ReseedWhilePausedReady(game, seed);
  }

  /** Events that apply one after another from `game`: every event keeps the
      grid's shape, so only the reseeds' grids need checking. */
  predicate Playable(game: Game, events: seq<Event>) {
    WellFormed(game) && forall i :: 0 <= i < |events| ==> Fits(events[i], game.m, game.n)
  }

  /** The game after a sequence of events. */
  function Play(game: Game, events: seq<Event>): (r: Game)
    requires Playable(game, events)
    ensures WellFormed(r) && r.m == game.m && r.n == game.n && r.rule == game.rule
    decreases |events|
  {
    if |events| == 0 then game else Play(Handle(game, events[0]), events[1..])
  }

  /** Every reseed in `events` happens while the game is paused. */
  predicate PausedReseeds(game: Game, events: seq<Event>)
    requires Playable(game, events)
    decreases |events|
  {
    |events| == 0 ||
    (ReseedsWhilePaused(game, events[0]) && PausedReseeds(Handle(game, events[0]), events[1..]))
  }

  /** A ready game stays ready through any sequence of events whose reseeds
      all happen while paused. */
  lemma {:induction false} PlayReady(game: Game, events: seq<Event>)
    requires Ready(game) && Playable(game, events) && PausedReseeds(game, events)
    ensures Ready(Play(game, events))
    decreases |events|
  {
    if |events| > 0 {
      HandleReady(game, events[0]);
      PlayReady(Handle(game, events[0]), events[1..]);
    }
  }

  /** One event with the corrected reseed. */
  function HandleRebuilt(game: Game, event: Event): (r: Game)
    requires Applicable(game, event)
    ensures WellFormed(r) && r.m == game.m && r.n == game.n && r.rule == game.rule
    ensures event.Key? && event.command.ReseedKey? ==>
              r.grid == event.command.seed &&
              r.checkList == InitialCheckList(r.grid, r.m, r.n)
  {
    match event
    case Key(ReseedKey(seed)) => ReseedRebuilt(game, seed)
    case _ => Handle(game, event)
  }

  /** With the corrected reseed every event keeps a ready game ready, running
      or paused. */
  lemma HandleRebuiltReady(game: Game, event: Event)
    requires Ready(game) && Applicable(game, event)
    ensures Ready(HandleRebuilt(game, event))
  {
    match event
    case Frame(elapsed) => UpdateReady(game, elapsed);
    case Key(PauseKey) => TogglePauseReady(game);
    case Key(ClearKey) => ClearReady(game);
    case Key(ReseedKey(seed)) => ReseedRebuiltReady(game, seed);
  }

  /** The game after a sequence of events, with the corrected reseed. */
  function PlayRebuilt(game: Game, events: seq<Event>): (r: Game)
    requires Playable(game, events)
    ensures WellFormed(r) && r.m == game.m && r.n == game.n && r.rule == game.rule
    decreases |events|
  {
    if |events| == 0 then game else PlayRebuilt(HandleRebuilt(game, events[0]), events[1..])
  }

  /** With the corrected reseed a ready game stays ready through any sequence
      of events. */
  lemma {:induction false} PlayRebuiltReady(game: Game, events: seq<Event>)
    requires Ready(game) && Playable(game, events)
    ensures Ready(PlayRebuilt(game, events))
    decreases |events|
  {
    if |events| > 0 {
      HandleRebuiltReady(game, events[0]);
      PlayRebuiltReady(HandleRebuilt(game, events[0]), events[1..]);
    }
  }

  /** With an empty check list a step kills every cell, whatever the grid. */
  lemma EmptyCheckListKills(game: Game, elapsed: nat)
    requires WellFormed(game) && !game.paused && game.timer <= 0 && game.checkList == {}
    ensures Update(game, elapsed).grid == Dead(game.m, game.n)
  {
    assert NextLive(game.grid, game.m, game.n, game.rule, {}) == {};
    var a, b := GridOf(game.m, game.n, {}), Dead(game.m, game.n);
    forall r | 0 <= r < game.m
      ensures a[r] == b[r]
    {
    }
  }

  /** Clearing a running game and letting a step happen leaves an empty check
      list, which the reseed as written then keeps. */
  lemma ClearStepReseedIsStale(game: Game, elapsed: nat, seed: Grid)
    requires WellFormed(game) && !game.paused && game.timer <= 0 && 0 !in game.rule.birth
    requires Shaped(seed, game.m, game.n)
    ensures Reseed(Update(Clear(game), elapsed), seed).checkList == {}
  {
    DeadStaysDead(game.m, game.n, game.rule, game.checkList);
  }

  /** The grid of a 3 x 3 torus with the single live cell `(0, 0)`. */
  function LoneCell(): (g: Grid)
    ensures Shaped(g, 3, 3) && Live(g, (0, 0))
    ensures forall p :: InRange(3, 3, p) && p != (0, 0) ==> !Live(g, p)
  {
    [[1, 0, 0], [0, 0, 0], [0, 0, 0]]
  }

  /** A running, ready game on a cleared 3 x 3 torus with an empty check list
      and its countdown run out, under the rule `B/S0`. */
  function StaleGame(): (game: Game)
    ensures Ready(game) && !game.paused && game.checkList == {} && game.timer <= 0
  {
    DeadCovered(3, 3, {});
    Game(3, 3, Rule([], [0]), Dead(3, 3), {}, false, 0)
  }

  /** The reseed as written breaks readiness: after reseeding the stale game
      with the lone cell, the live cell `(0, 0)` is not on the check list. */
  lemma ReseedBreaksReady()
    ensures !Ready(Reseed(StaleGame(), LoneCell()))
  {
    var game := Reseed(StaleGame(), LoneCell());
    assert Active(game.grid, 3, 3, (0, 0));
  }

  /** And the population is lost: the next step kills the lone cell, although
      the rule `B/S0` keeps a cell with no live neighbour alive and the dense
      step does keep it. */
  lemma ReseedLosesLoneCell()
    ensures Update(Reseed(StaleGame(), LoneCell()), 0).grid[0][0] == 0
    ensures DenseStep(LoneCell(), 3, 3, Rule([], [0]))[0][0] == 1
  {
    EmptyCheckListKills(Reseed(StaleGame(), LoneCell()), 0);
    QuietCount(LoneCell(), 3, 3, (0, 0));
  }

  /** The corrected reseed has the step after it agree with the dense step of
      the new grid whenever no birth happens on count 0. */
  lemma ReseedRebuiltThenStep(game: Game, seed: Grid, elapsed: nat)
    requires WellFormed(game) && Shaped(seed, game.m, game.n)
    requires !game.paused && game.timer <= 0 && 0 !in game.rule.birth
    ensures Update(ReseedRebuilt(game, seed), elapsed).grid == DenseStep(seed, game.m, game.n, game.rule)
  {
    ReseedRebuiltReady(game, seed);
    UpdateIsDenseStep(ReseedRebuilt(game, seed), elapsed);
  }
}

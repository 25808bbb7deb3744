/** The two-team state machine of the flip-the-tile game
    (src/lib/gameLogic.js, `createGameState` and `processTileFlip`), under the
    simple ruleset that file implements: a bomb always zeroes the score, a
    team is out once its lives drop to 0 or below, lives have no cap, and the
    game is over when neither team can continue. The source mutates the state
    object in place; here a flip returns the new state. */
module Game {
  import opened Decimal
  import opened Board

  datatype TeamId = Team1 | Team2

  function Other(team: TeamId): (o: TeamId)
    ensures o != team
  {
    if team == Team1 then Team2 else Team1
  }

  /** One team's record: `flippedTiles` holds the "row-col" keys of the
      cells this team has revealed. */
  datatype TeamState = TeamState(
    name: string,
    score: int,
    lives: int,
    multiplier: int,
    flippedTiles: set<string>,
    canContinue: bool)

  datatype GameState = GameState(
    team1: TeamState,
    team2: TeamState,
    currentTeam: TeamId,
    gameOver: bool)
  {
    function Team(id: TeamId): TeamState {
      if id == Team1 then team1 else team2
    }

    /** The state with the record of `id` replaced. */
    function WithTeam(id: TeamId, t: TeamState): (g: GameState)
      ensures g.Team(id) == t && g.Team(Other(id)) == Team(Other(id))
      ensures g.currentTeam == currentTeam && g.gameOver == gameOver
    {
      if id == Team1 then this.(team1 := t) else this.(team2 := t)
    }
  }

  /** What revealing one tile did to the acting team, with the message shown
      to the players and whether the same team flips again. */
  datatype Effect = Effect(team: TeamState, message: string, continuePlay: bool)

  /** The value `processTileFlip` returns, together with the state it left. */
  datatype FlipResult = FlipResult(state: GameState, message: string, continuePlay: bool)

  /** `key` reads as cell (row, col): digits for the row, a dash at index
      `k`, digits for the column. */
  predicate KeyOf(key: string, row: nat, col: nat) {
    exists k :: 0 < k < |key| && key[k] == '-'
      && IsDigits(key[..k]) && DigitsToNat(key[..k]) == row
      && IsDigits(key[k + 1..]) && 0 < |key[k + 1..]| && DigitsToNat(key[k + 1..]) == col
  }

  /** The key `${row}-${col}` under which a cell is recorded as flipped. */
  function TileId(row: nat, col: nat): string {
    NatToString(row) + "-" + NatToString(col)
  }

  /** The key reads back as its cell: the row in decimal, a dash, the column
      in decimal. */
  lemma TileIdDecodes(row: nat, col: nat)
    ensures KeyOf(TileId(row, col), row, col)
  {
    var x, y := NatToString(row), NatToString(col);
    var key := TileId(row, col);
    assert key[..|x|] == x && key[|x| + 1..] == y;
  }

  /** In `x + "-" + y` with `x` made of digits, the first dash is the one
      right after `x`. */
  lemma FirstDash(x: string, y: string)
    requires IsDigits(x)
    ensures (x + "-" + y)[|x|] == '-'
    ensures forall i :: 0 <= i < |x| ==> (x + "-" + y)[i] != '-'
  {
  }

  /** Distinct cells have distinct keys, so a team's flipped set tells the
      cells apart. */
  lemma TileIdInjective(row1: nat, col1: nat, row2: nat, col2: nat)
    requires TileId(row1, col1) == TileId(row2, col2)
    ensures row1 == row2 && col1 == col2
  {
    var a, b := NatToString(row1), NatToString(col1);
    var c, d := NatToString(row2), NatToString(col2);
    var s := TileId(row1, col1);
    FirstDash(a, b);
    FirstDash(c, d);
    assert |a| == |c|;
    assert a == s[..|a|] == c;
    assert b == s[|a| + 1..] == d;
    NatToStringInjective(row1, row2);
    NatToStringInjective(col1, col2);
  }

  function NewTeam(name: string): TeamState {
    TeamState(name, 0, 3, 1, {}, true)
  }

  /** `createGameState`: both teams start level, with team 1 to move. */
  function CreateGameState(): (g: GameState)
    ensures forall id :: (g.Team(id).score == 0 && g.Team(id).lives == 3
      && g.Team(id).multiplier == 1 && g.Team(id).flippedTiles == {} && g.Team(id).canContinue)
    ensures g.team1.name == "Thunder Hawks" && g.team2.name == "Lightning Wolves"
    ensures g.currentTeam == Team1 && !g.gameOver
  {
    GameState(NewTeam("Thunder Hawks"), NewTeam("Lightning Wolves"), Team1, false)
  }

  predicate EndsWith(s: string, suffix: string) {
    |suffix| <= |s| && s[|s| - |suffix|..] == suffix
  }

  lemma ScaledNonNegative(value: int, multiplier: int)
    ensures value >= 0 && multiplier >= 1 ==> value * multiplier >= 0
  {
  }

  /** The effect of one tile on the acting team: the `switch` on the tile
      type. */
  function ApplyTile(t: TeamState, tile: Tile): (e: Effect)
    ensures e.team.name == t.name && e.team.flippedTiles == t.flippedTiles
    ensures e.continuePlay <==> tile.kind in {Life, Multiplier, TryAgain}
    // points and try_again: the tile's value, scaled by the multiplier, is
    // added, and the multiplier is used up
    ensures tile.kind in {Points, TryAgain} ==>
      && e.team.score == t.score + tile.value * t.multiplier
      && e.team.multiplier == 1
      && e.team.lives == t.lives && e.team.canContinue == t.canContinue
    // bomb: all points and one life lost; out once lives reach 0
    ensures tile.kind == Bomb ==>
      && e.team.score == 0 && e.team.lives == t.lives - 1
      && (e.team.canContinue <==> t.canContinue && e.team.lives > 0)
      && e.team.multiplier == t.multiplier
      && (EndsWith(e.message, " Game Over!") <==> e.team.lives <= 0)
    // life: one more life, no cap, nothing else changes
    ensures tile.kind == Life ==>
      e.team == t.(lives := t.lives + 1)
    // multiplier: set to 2, not accumulated
    ensures tile.kind == Multiplier ==>
      e.team == t.(multiplier := 2)
    // a team that is out stays out
    ensures e.team.canContinue ==> t.canContinue
    // no tile but a bomb takes points away
    ensures tile.kind != Bomb && tile.value >= 0 && t.multiplier >= 1 ==> e.team.score >= t.score
  {
    match tile.kind
    case Points =>
      var points := tile.value * t.multiplier;
      ScaledNonNegative(tile.value, t.multiplier);
      Effect(t.(score := t.score + points, multiplier := 1),
        "+" + IntToString(points) + " points!", false)
    case Bomb =>
      var lives := t.lives - 1;
      var base := "Bomb! Lost all points and a life!";
      if lives <= 0 then
        Effect(t.(score := 0, lives := lives, canContinue := false), base + " Game Over!", false)
      else
        assert !EndsWith(base, " Game Over!") by {
          assert base[|base| - 11..][0] == 'a' != " Game Over!"[0];
        }
        Effect(t.(score := 0, lives := lives), base, false)
    case Life =>
      Effect(t.(lives := t.lives + 1), "Extra life gained!", true)
    case Multiplier =>
      Effect(t.(multiplier := 2), "Next points will be doubled!", true)
    case TryAgain =>
      var points := tile.value * t.multiplier;
      ScaledNonNegative(tile.value, t.multiplier);
      Effect(t.(score := t.score + points, multiplier := 1),
        "+" + IntToString(points) + " point! Try one more time!", true)
  }

  /** The message shown for each kind of tile. */
  lemma ApplyTileMessage(t: TeamState, tile: Tile)
    ensures var m := ApplyTile(t, tile).message;
      && (tile.kind == Points ==> m == "+" + IntToString(tile.value * t.multiplier) + " points!")
      && (tile.kind == TryAgain ==> m == "+" + IntToString(tile.value * t.multiplier) + " point! Try one more time!")
      && (tile.kind == Bomb ==>
            m == "Bomb! Lost all points and a life!" + (if t.lives - 1 <= 0 then " Game Over!" else ""))
      && (tile.kind == Life ==> m == "Extra life gained!")
      && (tile.kind == Multiplier ==> m == "Next points will be doubled!")
  {
  }

  /** `processTileFlip`: record the cell for the acting team, apply the
      tile, end the game when neither team can continue, and hand the turn to
      the other team when the acting team neither continues nor is out. */
  function ProcessTileFlip(g: GameState, team: TeamId, row: nat, col: nat, tile: Tile): (r: FlipResult)
    ensures r.state.Team(team).flippedTiles == g.Team(team).flippedTiles + {TileId(row, col)}
    ensures r.state.Team(team) ==
      ApplyTile(g.Team(team), tile).team.(flippedTiles := r.state.Team(team).flippedTiles)
    ensures r.message == ApplyTile(g.Team(team), tile).message
    ensures r.continuePlay <==> tile.kind in {Life, Multiplier, TryAgain}
    // the other team's record is untouched
    ensures r.state.Team(Other(team)) == g.Team(Other(team))
    // the game is over once neither team can continue, and stays over
    ensures r.state.gameOver <==>
      g.gameOver || (!r.state.Team(team).canContinue && !r.state.Team(Other(team)).canContinue)
    // the turn passes exactly when the acting team stops without being out
    ensures !r.continuePlay && r.state.Team(team).canContinue ==> r.state.currentTeam == Other(team)
    ensures r.continuePlay || !r.state.Team(team).canContinue ==> r.state.currentTeam == g.currentTeam
  {
    var before := g.Team(team);
    var recorded := before.(flippedTiles := before.flippedTiles + {TileId(row, col)});
    var e := ApplyTile(recorded, tile);
    var other := Other(team);
    var g1 := g.WithTeam(team, e.team);
    var gameOver := if !e.team.canContinue && !g1.Team(other).canContinue then true else g1.gameOver;
    var current := if !e.continuePlay && e.team.canContinue then other else g1.currentTeam;
    FlipResult(g1.(gameOver := gameOver, currentTeam := current), e.message, e.continuePlay)
  }

  /** After a flip the acting team's set holds the flipped cell, and any
      other cell exactly when it held it before. */
  lemma FlipRecordsCell(g: GameState, team: TeamId, row: nat, col: nat, tile: Tile, row': nat, col': nat)
    ensures TileId(row', col') in ProcessTileFlip(g, team, row, col, tile).state.Team(team).flippedTiles
      <==> (row' == row && col' == col) || TileId(row', col') in g.Team(team).flippedTiles
  {
    if TileId(row', col') == TileId(row, col) {
      TileIdInjective(row', col', row, col);
    }
  }

  /** Recording a cell that is already recorded changes nothing. */
  lemma ReflipKeepsFlippedSet(g: GameState, team: TeamId, row: nat, col: nat, tile: Tile)
    requires TileId(row, col) in g.Team(team).flippedTiles
    ensures ProcessTileFlip(g, team, row, col, tile).state.Team(team).flippedTiles == g.Team(team).flippedTiles
  {
  }

  /** One revealed tile: the acting team, the cell and what it held. */
  datatype Flip = Flip(team: TeamId, row: nat, col: nat, tile: Tile)

  /** The state after a sequence of flips, in order. */
  function Play(g: GameState, flips: seq<Flip>): GameState
    decreases |flips|
  {
    if |flips| == 0 then g
    else
      var f := flips[0];
      Play(ProcessTileFlip(g, f.team, f.row, f.col, f.tile).state, flips[1..])
  }

  /** The facts every state reachable from the initial one satisfies, when
      tile values are not negative. */
  predicate WellFormed(g: GameState) {
    && TeamOk(g.team1) && TeamOk(g.team2)
    && (g.gameOver ==> !g.team1.canContinue && !g.team2.canContinue)
  }

  /** One team's part of `WellFormed`: an unused or just-set multiplier, no
      debt, and no play left once the lives are gone. */
  predicate TeamOk(t: TeamState) {
    && t.multiplier in {1, 2}
    && t.score >= 0
    && (t.lives <= 0 ==> !t.canContinue)
  }

  predicate NonNegativeTiles(flips: seq<Flip>) {
    forall k :: 0 <= k < |flips| ==> flips[k].tile.value >= 0
  }

  lemma InitialStateWellFormed()
    ensures WellFormed(CreateGameState())
  {
  }

  /** A tile of non-negative value keeps a team's record in shape. */
  lemma ApplyTileKeepsTeamOk(t: TeamState, tile: Tile)
    requires TeamOk(t) && tile.value >= 0
    ensures TeamOk(ApplyTile(t, tile).team)
  {
    var t' := ApplyTile(t, tile).team;
    match tile.kind
    case Points =>
      assert t'.score >= t.score;
    case TryAgain =>
      assert t'.score >= t.score;
    case _ =>
  }

  lemma FlipPreservesWellFormed(g: GameState, team: TeamId, row: nat, col: nat, tile: Tile)
    requires WellFormed(g) && tile.value >= 0
    ensures WellFormed(ProcessTileFlip(g, team, row, col, tile).state)
  {
    var g' := ProcessTileFlip(g, team, row, col, tile).state;
    var before := g.Team(team);
    assert TeamOk(before);
    ApplyTileKeepsTeamOk(before, tile);
    assert TeamOk(g'.Team(team));
    assert g'.Team(Other(team)) == g.Team(Other(team));
    if team == Team1 {
      assert TeamOk(g'.team1) && g'.team2 == g.team2;
    } else {
      assert TeamOk(g'.team2) && g'.team1 == g.team1;
    }
  }

  lemma {:induction false} PlayPreservesWellFormed(g: GameState, flips: seq<Flip>)
    requires WellFormed(g) && NonNegativeTiles(flips)
    ensures WellFormed(Play(g, flips))
    decreases |flips|
  {
    if |flips| > 0 {
      var f := flips[0];
      FlipPreservesWellFormed(g, f.team, f.row, f.col, f.tile);
      PlayPreservesWellFormed(ProcessTileFlip(g, f.team, f.row, f.col, f.tile).state, flips[1..]);
    }
  }

  /** Once over, a game stays over; once out, a team stays out. */
  lemma {:induction false} PlayMonotone(g: GameState, flips: seq<Flip>, id: TeamId)
    ensures g.gameOver ==> Play(g, flips).gameOver
    ensures !g.Team(id).canContinue ==> !Play(g, flips).Team(id).canContinue
    decreases |flips|
  {
    if |flips| > 0 {
      var f := flips[0];
      PlayMonotone(ProcessTileFlip(g, f.team, f.row, f.col, f.tile).state, flips[1..], id);
    }
  }

  /** How many of the flips were made by `id` on a tile of kind `kind`. */
  function CountFlips(flips: seq<Flip>, id: TeamId, kind: TileKind): nat
    decreases |flips|
  {
    if |flips| == 0 then 0
    else
      var here := if flips[0].team == id && flips[0].tile.kind == kind then 1 else 0;
      here + CountFlips(flips[1..], id, kind)
  }

  /** A team's lives change only by its own bombs (one less each) and extra
      lives (one more each). */
  lemma {:induction false} PlayLivesLedger(g: GameState, flips: seq<Flip>, id: TeamId)
    ensures Play(g, flips).Team(id).lives
      == g.Team(id).lives + CountFlips(flips, id, Life) - CountFlips(flips, id, Bomb)
    decreases |flips|
  {
    if |flips| > 0 {
      var f := flips[0];
      PlayLivesLedger(ProcessTileFlip(g, f.team, f.row, f.col, f.tile).state, flips[1..], id);
    }
  }

  /** The keys of the cells `id` flipped. */
  function FlippedBy(flips: seq<Flip>, id: TeamId): set<string>
    decreases |flips|
  {
    if |flips| == 0 then {}
    else
      var here := if flips[0].team == id then {TileId(flips[0].row, flips[0].col)} else {};
      here + FlippedBy(flips[1..], id)
  }

  /** A team's flipped set grows by exactly the cells that team flipped. */
  lemma {:induction false} PlayFlippedLedger(g: GameState, flips: seq<Flip>, id: TeamId)
    ensures Play(g, flips).Team(id).flippedTiles == g.Team(id).flippedTiles + FlippedBy(flips, id)
    decreases |flips|
  {
    if |flips| > 0 {
      var f := flips[0];
      PlayFlippedLedger(ProcessTileFlip(g, f.team, f.row, f.col, f.tile).state, flips[1..], id);
    }
  }

  /** Team 1 opens a fresh game on the 100-point tile: it scores 100, the
      message says so, and the turn passes to team 2. */
  lemma FirstFlipScenario()
    ensures var r := ProcessTileFlip(CreateGameState(), Team1, 0, 0, Tile(Points, 100));
      && r.state.team1.score == 100 && r.message == "+100 points!"
      && !r.continuePlay && r.state.currentTeam == Team2 && !r.state.gameOver
  {
    assert NatToString(100) == "100" by {
      assert NatToString(10) == "10";
    }
  }

  /** A bomb on a team's last life puts it out; when the other team is
      already out the game ends, and the turn does not move. */
  lemma LastLifeBombScenario(g: GameState)
    requires g.team1.lives == 1 && g.team1.canContinue && !g.team2.canContinue
    ensures var r := ProcessTileFlip(g, Team1, 3, 4, Tile(Bomb, 0));
      && r.state.team1.lives == 0 && r.state.team1.score == 0 && !r.state.team1.canContinue
      && r.state.gameOver && r.state.currentTeam == g.currentTeam
      && r.message == "Bomb! Lost all points and a life! Game Over!"
  {
  }
}

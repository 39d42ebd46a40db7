/** The command machine of a running game: tiles, players and the rules for moves, attacks and growth. */
module GameCommands {
  import opened Collections

  const WORD_LIMIT: nat := 0x1_0000_0000

  /** A 32-bit unsigned number; arithmetic on it wraps around. */
  type Word = n: nat | n < WORD_LIMIT

  datatype Tile = Tile(owner: nat, value: Word, isBase: bool, countered: bool, acted: bool)

  datatype Player = Player(seat: nat, resources: Word, baseCount: Word, failure: bool)

  /** A game; `ended` lists the winners passed to the end callback, if one is set. */
  datatype Game = Game(tiles: seq<Tile>, players: map<nat, Player>, hasCallback: bool, ended: seq<nat>)

  datatype Cmd =
    | Move(playerId: nat, param1: int, param2: int)
    | Attack(playerId: nat, param1: int, param2: int)
    | Grow(playerId: nat, param1: int, param2: int)
    | Unknown(playerId: nat)

  /** A refused command and one whose tile does not exist both throw and change nothing. */
  datatype Outcome = Done | Refused | NoSuchTile

  function Add(a: Word, b: int): Word {
    (a + b) % WORD_LIMIT
  }

  function Sub(a: Word, b: Word): Word {
    (a - b) % WORD_LIMIT
  }

  predicate IsTile(tiles: seq<Tile>, i: int) {
    0 <= i < |tiles|
  }

  /** `ValidateCmd` and the exceptions of `ProcessCommand` */
  function Check(tiles: seq<Tile>, cmd: Cmd): Outcome {
    match cmd
    case Move(p, from, to) =>
      if !IsTile(tiles, from) || !IsTile(tiles, to) then NoSuchTile
      else if from != to && tiles[from].owner == p && tiles[to].owner == p && tiles[from].value > 1 then Done
      else Refused
    case Attack(p, from, to) =>
      if !IsTile(tiles, from) || !IsTile(tiles, to) then NoSuchTile
      else if from != to && tiles[from].owner == p && tiles[to].owner != p && tiles[from].value > 1 then Done
      else Refused
    case Grow(p, at, _) =>
      if !IsTile(tiles, at) then NoSuchTile
      else if tiles[at].owner == p && tiles[at].value > 0 then Done
      else Refused
    case Unknown(_) => Refused
  }

  // ---------- Players ----------

  const NewPlayer := Player(0, 0, 0, false)

  /** Indexing the player map adds a player that is missing. */
  function Touch(players: map<nat, Player>, p: nat): (r: map<nat, Player>)
    ensures r.Keys == players.Keys + {p}
    ensures NoFailure(players) ==> NoFailure(r)
  {
    if p in players then players else players[p := NewPlayer]
  }

  function Credit(players: map<nat, Player>, p: nat, resources: int, bases: int): (r: map<nat, Player>)
    requires p in players
    ensures r.Keys == players.Keys
    ensures NoFailure(players) ==> NoFailure(r)
  {
    players[p := players[p].(resources := Add(players[p].resources, resources),
                             baseCount := Add(players[p].baseCount, bases))]
  }

  predicate NoFailure(players: map<nat, Player>) {
    forall p :: p in players ==> !players[p].failure
  }

  /** `GameEndCheck` while no player has failed. */
  function EndCheck(g: Game): Game {
    if g.hasCallback then g.(ended := g.ended + [0]) else g
  }

  // ---------- Commands ----------

  function MoveStep(g: Game, p: nat, from: nat, to: nat): Game
    requires from < |g.tiles| && to < |g.tiles|
  {
    var src, dst := g.tiles[from], g.tiles[to];
    // The source is reset before its troops are added, so nothing arrives.
    var tiles := g.tiles[from := src.(value := 1, acted := true)][to := dst.(owner := src.owner)];
    var paid := Credit(Touch(g.players, p), p, 1, 0);
    g.(tiles := tiles, players := if dst.isBase then Credit(paid, p, 0, 1) else paid)
  }

  /** The two tiles after a won attack. The attacker's value is reset before it is subtracted. */
  function WonTiles(tiles: seq<Tile>, from: nat, to: nat): seq<Tile>
    requires from < |tiles| && to < |tiles|
  {
    var src, dst := tiles[from], tiles[to];
    var left := Sub(dst.value, 2);
    tiles[from := src.(value := 1)][to := dst.(value := left, owner := if left > 0 then src.owner else 0)]
  }

  /** The records of the attacker `a` and the defender `d` after an attack that won and took the tile or not. */
  function WonPlayers(players: map<nat, Player>, a: nat, d: nat, taken: bool): map<nat, Player> {
    var both := Touch(Touch(players, a), d);
    Credit(if taken then Credit(both, a, 1, 0) else both, d, -1, 0)
  }

  /** The base counts after a won attack on a base that now belongs to `owner`. */
  function BaseTaken(players: map<nat, Player>, a: nat, d: nat, owner: nat): map<nat, Player>
    requires a in players && d in players
  {
    Credit(if owner == a then Credit(players, a, 0, 1) else players, d, 0, -1)
  }

  function WonAttack(g: Game, from: nat, to: nat): Game
    requires from < |g.tiles| && to < |g.tiles|
  {
    var a, d := g.tiles[from].owner, g.tiles[to].owner;
    var tiles := WonTiles(g.tiles, from, to);
    var players := WonPlayers(g.players, a, d, tiles[to].value > 0);
    if tiles[to].isBase then EndCheck(g.(tiles := tiles, players := BaseTaken(players, a, d, tiles[to].owner)))
    else g.(tiles := tiles, players := players)
  }

  /** The two tiles after a lost attack: a defender that has not countered yet destroys the attacker. */
  function LostTiles(tiles: seq<Tile>, from: nat, to: nat): seq<Tile>
    requires from < |tiles| && to < |tiles|
  {
    var src, dst := tiles[from], tiles[to];
    var attacker := if dst.countered then src.(acted := true) else src.(value := 0, owner := 0);
    var left := Sub(dst.value, attacker.value);
    tiles[from := attacker][to := dst.(countered := true, value := left, owner := if left == 0 then 0 else dst.owner)]
  }

  /** The first half of a lost attack, up to the end check for a destroyed attacker on a base. */
  function Countered(g: Game, a: nat, d: nat, dies: bool, base: bool): (h: Game)
    ensures a in h.players && d in h.players && h.tiles == g.tiles
  {
    var both := Touch(Touch(g.players, a), d);
    if !dies then g.(players := both)
    else if base then EndCheck(g.(players := Credit(Credit(both, a, -1, 0), a, 0, -1)))
    else g.(players := Credit(both, a, -1, 0))
  }

  /** The second half, for a defender whose value has come to 0. */
  function BothDown(g: Game, a: nat, d: nat, base: bool): (h: Game)
    requires a in g.players && d in g.players
    ensures h.tiles == g.tiles
  {
    var players := Credit(Credit(g.players, a, -1, 0), d, -1, 0);
    if base then EndCheck(g.(players := Credit(players, d, 0, -1))) else g.(players := players)
  }

  function LostAttack(g: Game, from: nat, to: nat): Game
    requires from < |g.tiles| && to < |g.tiles|
  {
    var src, dst := g.tiles[from], g.tiles[to];
    var tiles := LostTiles(g.tiles, from, to);
    var h := Countered(g.(tiles := tiles), src.owner, dst.owner, !dst.countered, src.isBase);
    if tiles[to].value == 0 then BothDown(h, src.owner, dst.owner, dst.isBase) else h
  }

  function GrowStep(g: Game, at: nat, amount: int): Game
    requires at < |g.tiles|
  {
    g.(tiles := g.tiles[at := g.tiles[at].(value := Add(g.tiles[at].value, amount))])
  }

  /** `ProcessCommand` */
  function Step(g: Game, cmd: Cmd): Game {
    if Check(g.tiles, cmd) != Done then g
    else
      match cmd
      case Move(p, from, to) => MoveStep(g, p, from, to)
      case Attack(_, from, to) =>
        if g.tiles[from].value > g.tiles[to].value then WonAttack(g, from, to) else LostAttack(g, from, to)
      case Grow(_, at, amount) => GrowStep(g, at, amount)
      case Unknown(_) => g
  }

  function Run(g: Game, cmds: seq<Cmd>): Game
    decreases |cmds|
  {
    if cmds == [] then g else Step(Run(g, cmds[..|cmds| - 1]), cmds[|cmds| - 1])
  }

  // ---------- Ownership ----------

  predicate Owns(tiles: seq<Tile>, p: nat) {
    exists i :: 0 <= i < |tiles| && tiles[i].owner == p
  }

  /** A command hands tiles only to players that own one already. */
  lemma NoNewOwner(g: Game, cmd: Cmd, p: nat)
    requires p != 0 && !Owns(g.tiles, p)
    ensures !Owns(Step(g, cmd).tiles, p) && (cmd.playerId == p ==> Check(g.tiles, cmd) != Done)
  {
    hide NoFailure, Credit, Touch, Add, Sub, WonPlayers, BaseTaken, Countered, BothDown;
  }

  /** A player who owns no tile never owns one again, and every later command of that player throws. */
  lemma {:induction false} GoneForGood(g: Game, cmds: seq<Cmd>, p: nat)
    requires p != 0 && !Owns(g.tiles, p)
    ensures !Owns(Run(g, cmds).tiles, p)
    ensures forall k :: 0 <= k < |cmds| && cmds[k].playerId == p ==> Check(Run(g, cmds[..k]).tiles, cmds[k]) != Done
    decreases |cmds|
  {
    hide Owns, Step, Check;
    if cmds != [] {
      var init, last := cmds[..|cmds| - 1], cmds[|cmds| - 1];
      GoneForGood(g, init, p);
      NoNewOwner(Run(g, init), last, p);
      assert forall k :: 0 <= k <= |init| ==> cmds[..k] == init[..k];
      assert forall k :: 0 <= k < |init| ==> cmds[k] == init[k];
    }
  }

  // ---------- Counter-attacks ----------

  function Uncountered(tiles: seq<Tile>): nat {
    if tiles == [] then 0 else (if tiles[0].countered then 0 else 1) + Uncountered(tiles[1..])
  }

  /** The command loses an attack to a tile that has not countered yet: the attacker is destroyed. */
  predicate CounterKill(g: Game, cmd: Cmd) {
    && cmd.Attack? && Check(g.tiles, cmd) == Done
    && g.tiles[cmd.param1].value <= g.tiles[cmd.param2].value && !g.tiles[cmd.param2].countered
  }

  function CounterKills(g: Game, cmds: seq<Cmd>): nat
    decreases |cmds|
  {
    if cmds == [] then 0
    else
      var init := cmds[..|cmds| - 1];
      CounterKills(g, init) + if CounterKill(Run(g, init), cmds[|cmds| - 1]) then 1 else 0
  }

  lemma {:induction false} UncounteredUpdate(tiles: seq<Tile>, i: nat, t: Tile)
    requires i < |tiles|
    ensures Uncountered(tiles[i := t]) + (if tiles[i].countered then 0 else 1)
            == Uncountered(tiles) + (if t.countered then 0 else 1)
  {
    if i == 0 {
      assert tiles[0 := t][1..] == tiles[1..];
    } else {
      assert tiles[i := t][1..] == tiles[1..][i - 1 := t];
      UncounteredUpdate(tiles[1..], i - 1, t);
    }
  }

  lemma CountersStep(g: Game, cmd: Cmd)
    ensures Uncountered(Step(g, cmd).tiles) + (if CounterKill(g, cmd) then 1 else 0) == Uncountered(g.tiles)
  {
    hide NoFailure, Credit, Touch, Add, Sub, WonPlayers, BaseTaken, Countered, BothDown, Uncountered;
    if Check(g.tiles, cmd) == Done {
      var h := Step(g, cmd);
      match cmd
      case Move(p, from, to) => CountersTwo(g.tiles, from, to, h.tiles);
      case Attack(p, from, to) => CountersTwo(g.tiles, from, to, h.tiles);
      case Grow(_, at, amount) => UncounteredUpdate(g.tiles, at, h.tiles[at]);
    }
  }

  lemma CountersTwo(before: seq<Tile>, i: nat, j: nat, after: seq<Tile>)
    requires i < |before| && j < |before| && i != j && |after| == |before|
    requires after == before[i := after[i]][j := after[j]] && after[i].countered == before[i].countered
    ensures Uncountered(after) + (if before[j].countered then 0 else 1)
            == Uncountered(before) + (if after[j].countered then 0 else 1)
  {
    UncounteredUpdate(before, i, after[i]);
    UncounteredUpdate(before[i := after[i]], j, after[j]);
  }

  /** Attackers destroyed by counter-attacks and tiles that can still counter add up to the tiles that could at the
      start; so at most that many attackers are ever destroyed this way. */
  lemma {:induction false} CountersConserved(g: Game, cmds: seq<Cmd>)
    ensures CounterKills(g, cmds) + Uncountered(Run(g, cmds).tiles) == Uncountered(g.tiles)
    decreases |cmds|
  {
    hide Uncountered, CounterKill, Step;
    if cmds != [] {
      var init := cmds[..|cmds| - 1];
      CountersConserved(g, init);
      CountersStep(Run(g, init), cmds[|cmds| - 1]);
    }
  }

  // ---------- The end of the game ----------

  ghost predicate Inv(g: Game) {
    NoFailure(g.players) && NoWinner(g.ended)
  }

  /** Every end announced by `GameEndCheck` while nobody has failed names winner 0. */
  ghost predicate NoWinner(ended: seq<nat>) {
    forall i :: 0 <= i < |ended| ==> ended[i] == 0
  }

  lemma StepNoFailure(g: Game, cmd: Cmd)
    requires NoFailure(g.players)
    ensures NoFailure(Step(g, cmd).players)
  {
    hide NoFailure, Credit, Touch, WonTiles, LostTiles;
  }

  lemma StepNoWinner(g: Game, cmd: Cmd)
    requires NoWinner(g.ended)
    ensures NoWinner(Step(g, cmd).ended) && |Step(g, cmd).tiles| == |g.tiles|
  {
    hide NoFailure, Credit, Touch, WonPlayers, BaseTaken;
  }

  lemma {:induction false} RunInv(g: Game, cmds: seq<Cmd>)
    requires Inv(g)
    ensures Inv(Run(g, cmds)) && |Run(g, cmds).tiles| == |g.tiles|
    decreases |cmds|
  {
    hide NoFailure, NoWinner, Step;
    if cmds != [] {
      var init := cmds[..|cmds| - 1];
      RunInv(g, init);
      StepNoFailure(Run(g, init), cmds[|cmds| - 1]);
      StepNoWinner(Run(g, init), cmds[|cmds| - 1]);
    }
  }

  /** The seats `StartGame` gives to the players of a match, by their place in it. */
  function Seats(ids: seq<nat>): map<nat, Player> {
    if ids == [] then map[]
    else Seats(ids[..|ids| - 1])[ids[|ids| - 1] := Player(|ids| - 1, 0, 0, false)]
  }

  lemma {:induction false} SeatsUnfailing(ids: seq<nat>)
    ensures NoFailure(Seats(ids))
    decreases |ids|
  {
    if ids != [] {
      SeatsUnfailing(ids[..|ids| - 1]);
    }
  }

  /** However a started game goes, no player ever fails, so whenever its end is announced the winner is 0. */
  lemma NobodyWins(tiles: seq<Tile>, ids: seq<nat>, hasCallback: bool, cmds: seq<Cmd>)
    ensures var g := Run(Game(tiles, Seats(ids), hasCallback, []), cmds);
            && (forall p :: p in g.players ==> !g.players[p].failure)
            && (forall i :: 0 <= i < |g.ended| ==> g.ended[i] == 0)
            && |g.tiles| == |tiles|
  {
    SeatsUnfailing(ids);
    RunInv(Game(tiles, Seats(ids), hasCallback, []), cmds);
  }

  // ---------- When the game ends ----------

  /** The command is an attack that wins a base, or loses its own base to a counter-attack, or brings a base that has
      countered down with it. */
  predicate CostsBase(g: Game, cmd: Cmd) {
    && cmd.Attack? && Check(g.tiles, cmd) == Done
    && var src, dst := g.tiles[cmd.param1], g.tiles[cmd.param2];
       if src.value > dst.value then dst.isBase
       else if !dst.countered then src.isBase
       else dst.isBase && src.value == dst.value
  }

  function BasesLost(g: Game, cmds: seq<Cmd>): nat
    decreases |cmds|
  {
    if cmds == [] then 0
    else
      var init := cmds[..|cmds| - 1];
      BasesLost(g, init) + if CostsBase(Run(g, init), cmds[|cmds| - 1]) then 1 else 0
  }

  /** The end is announced once for each such command and for no other. */
  lemma EndStep(g: Game, cmd: Cmd)
    ensures Step(g, cmd).hasCallback == g.hasCallback
    ensures |Step(g, cmd).ended| == |g.ended| + if g.hasCallback && CostsBase(g, cmd) then 1 else 0
  {
    if Check(g.tiles, cmd) == Done && cmd.Attack? {
      if g.tiles[cmd.param1].value > g.tiles[cmd.param2].value {
        EndWon(g, cmd.param1, cmd.param2);
      } else {
        EndLost(g, cmd.param1, cmd.param2);
      }
    }
    hide NoFailure, Credit, Touch, WonAttack, LostAttack;
  }

  lemma EndWon(g: Game, from: nat, to: nat)
    requires from < |g.tiles| && to < |g.tiles| && from != to
    ensures var h := WonAttack(g, from, to);
            h.hasCallback == g.hasCallback
            && |h.ended| == |g.ended| + if g.hasCallback && g.tiles[to].isBase then 1 else 0
  {
    hide NoFailure, Credit, Touch, WonPlayers, BaseTaken, Sub;
  }

  lemma EndLost(g: Game, from: nat, to: nat)
    requires from < |g.tiles| && to < |g.tiles| && from != to && 1 < g.tiles[from].value <= g.tiles[to].value
    ensures var h := LostAttack(g, from, to); var src, dst := g.tiles[from], g.tiles[to];
            h.hasCallback == g.hasCallback
            && |h.ended| == |g.ended| + if g.hasCallback && (if !dst.countered then src.isBase
                                                             else dst.isBase && src.value == dst.value) then 1 else 0
  {
    hide NoFailure, Credit, Touch, LostTiles, Countered, BothDown;
    var src, dst := g.tiles[from], g.tiles[to];
    var t := g.(tiles := LostTiles(g.tiles, from, to));
    LostToZero(g.tiles, from, to);
    CounteredEnd(t, src.owner, dst.owner, !dst.countered, src.isBase);
    BothDownEnd(Countered(t, src.owner, dst.owner, !dst.countered, src.isBase), src.owner, dst.owner, dst.isBase);
  }

  lemma LostToZero(tiles: seq<Tile>, from: nat, to: nat)
    requires from < |tiles| && to < |tiles| && from != to && 1 < tiles[from].value <= tiles[to].value
    ensures |LostTiles(tiles, from, to)| == |tiles|
    ensures LostTiles(tiles, from, to)[to].value == 0 <==> tiles[to].countered && tiles[from].value == tiles[to].value
  {
  }

  lemma CounteredEnd(g: Game, a: nat, d: nat, dies: bool, base: bool)
    ensures var h := Countered(g, a, d, dies, base);
            && h.hasCallback == g.hasCallback
            && |h.ended| == |g.ended| + if g.hasCallback && dies && base then 1 else 0
  {
    hide NoFailure, Credit, Touch;
  }

  lemma BothDownEnd(g: Game, a: nat, d: nat, base: bool)
    requires a in g.players && d in g.players
    ensures var h := BothDown(g, a, d, base);
            && h.hasCallback == g.hasCallback
            && |h.ended| == |g.ended| + if g.hasCallback && base then 1 else 0
  {
    hide NoFailure, Credit, Touch;
  }

  /** Over any run the announcements of the end are as many as the commands that cost a base: the first base to fall
      ends the game, whoever is left. */
  lemma {:induction false} EndsAnnounced(g: Game, cmds: seq<Cmd>)
    ensures Run(g, cmds).hasCallback == g.hasCallback
    ensures |Run(g, cmds).ended| == |g.ended| + if g.hasCallback then BasesLost(g, cmds) else 0
    decreases |cmds|
  {
    hide Step, CostsBase;
    if cmds != [] {
      var init := cmds[..|cmds| - 1];
      EndsAnnounced(g, init);
      EndStep(Run(g, init), cmds[|cmds| - 1]);
    }
  }

  /** The bases and their owners. */
  ghost predicate SameBases(a: seq<Tile>, b: seq<Tile>) {
    |a| == |b| && forall i :: 0 <= i < |a| ==>
      b[i].isBase == a[i].isBase && (a[i].isBase ==> b[i].owner == a[i].owner)
  }

  lemma BasesStep(g: Game, cmd: Cmd)
    requires !CostsBase(g, cmd)
    ensures SameBases(g.tiles, Step(g, cmd).tiles)
  {
    hide NoFailure, Credit, Touch, Add, WonPlayers, BaseTaken, Countered, BothDown;
  }

  /** As long as the end has not been announced every base has the owner it started with. */
  lemma {:induction false} BasesUntilTheEnd(g: Game, cmds: seq<Cmd>)
    requires g.hasCallback && |Run(g, cmds).ended| == |g.ended|
    ensures SameBases(g.tiles, Run(g, cmds).tiles)
    decreases |cmds|
  {
    hide Step, CostsBase;
    if cmds != [] {
      var init := cmds[..|cmds| - 1];
      EndsAnnounced(g, cmds);
      EndsAnnounced(g, init);
      BasesUntilTheEnd(g, init);
      BasesStep(Run(g, init), cmds[|cmds| - 1]);
    }
  }

  // ---------- What the commands change ----------

  /** Which commands are allowed: moves and attacks from a tile of the player with at least two troops, to another tile
      of the player or of anybody else; growth of a tile of the player that is not empty. A command that names a tile
      that does not exist is told apart. */
  lemma AllowedIff(tiles: seq<Tile>, cmd: Cmd)
    ensures Check(tiles, cmd) == NoSuchTile <==>
              match cmd
              case Move(_, from, to) => from < 0 || from >= |tiles| || to < 0 || to >= |tiles|
              case Attack(_, from, to) => from < 0 || from >= |tiles| || to < 0 || to >= |tiles|
              case Grow(_, at, _) => at < 0 || at >= |tiles|
              case Unknown(_) => false
    ensures Check(tiles, cmd) == Done <==>
              match cmd
              case Move(p, from, to) =>
                && 0 <= from < |tiles| && 0 <= to < |tiles| && from != to
                && tiles[from].owner == p == tiles[to].owner && tiles[from].value >= 2
              case Attack(p, from, to) =>
                && 0 <= from < |tiles| && 0 <= to < |tiles| && from != to
                && tiles[from].owner == p != tiles[to].owner && tiles[from].value >= 2
              case Grow(p, at, _) => 0 <= at < |tiles| && tiles[at].owner == p && tiles[at].value >= 1
              case Unknown(_) => false
  {
  }

  /** A player's record, which starts from nothing. */
  function RecordOf(players: map<nat, Player>, p: nat): Player {
    if p in players then players[p] else Player(0, 0, 0, false)
  }

  /** The record of `p` after a change of resources and base count. */
  ghost predicate Paid(before: map<nat, Player>, after: map<nat, Player>, p: nat, resources: int, bases: int) {
    && p in after
    && var was := RecordOf(before, p);
       after[p] == Player(was.seat, (was.resources + resources) % 0x1_0000_0000,
                          (was.baseCount + bases) % 0x1_0000_0000, was.failure)
  }

  /** Nobody's record but those of the players in `who` has changed. */
  ghost predicate OthersKept(before: map<nat, Player>, after: map<nat, Player>, who: set<nat>) {
    forall p :: p !in who ==> (p in before <==> p in after) && (p in before ==> after[p] == before[p])
  }

  /** No tile but those in `where` has changed. */
  ghost predicate TilesKept(before: seq<Tile>, after: seq<Tile>, where: set<int>) {
    |after| == |before| && forall i :: 0 <= i < |before| && i !in where ==> after[i] == before[i]
  }

  /** A move leaves one troop behind and brings nothing: the target is as it was. The player gets one resource, and a
      base for every base moved to. */
  lemma MoveOutcome(g: Game, cmd: Cmd)
    requires cmd.Move? && Check(g.tiles, cmd) == Done
    ensures var h := Step(g, cmd); var p, from, to := cmd.playerId, cmd.param1, cmd.param2;
            && TilesKept(g.tiles, h.tiles, {from})
            && h.tiles[from] == g.tiles[from].(value := 1, acted := true)
            && Paid(g.players, h.players, p, 1, if g.tiles[to].isBase then 1 else 0)
            && OthersKept(g.players, h.players, {p}) && h.ended == g.ended
  {
    hide NoFailure;
  }

  /** Growth changes the value of one tile, by any amount and with wrap-around. */
  lemma GrowOutcome(g: Game, cmd: Cmd)
    requires cmd.Grow? && Check(g.tiles, cmd) == Done
    ensures var h := Step(g, cmd); var at := cmd.param1;
            && TilesKept(g.tiles, h.tiles, {at})
            && h.tiles[at] == g.tiles[at].(value := (g.tiles[at].value + cmd.param2) % 0x1_0000_0000)
            && h.players == g.players && h.ended == g.ended
  {
  }

  /** A won attack takes the tile unless its value was exactly 2, and adds troops out of nothing exactly when the
      value was below 2: the subtraction wraps around. The source is left with one troop, and no other tile changes. */
  lemma WonAttackOutcome(g: Game, cmd: Cmd)
    requires cmd.Attack? && Check(g.tiles, cmd) == Done && cmd.playerId != 0
    requires g.tiles[cmd.param1].value > g.tiles[cmd.param2].value
    ensures var before, after := g.tiles[cmd.param2], Step(g, cmd).tiles[cmd.param2];
            && (after.owner == cmd.playerId <==> before.value != 2)
            && (after.owner == 0 <==> before.value == 2)
            && (after.value > before.value <==> before.value < 2)
            && after.value + 2 == before.value + (if before.value < 2 then 0x1_0000_0000 else 0)
            && after.(owner := before.owner, value := before.value) == before
    ensures var t := Step(g, cmd).tiles;
            TilesKept(g.tiles, t, {cmd.param1, cmd.param2}) && t[cmd.param1] == g.tiles[cmd.param1].(value := 1)
  {
    hide NoFailure, Credit, Touch, WonPlayers, BaseTaken, LostAttack;
  }

  /** A lost attack destroys the attacker if the defender had not countered yet, the defender if it had and the
      values are equal, and neither of them otherwise. No other tile changes. */
  lemma LostAttackOutcome(g: Game, cmd: Cmd)
    requires cmd.Attack? && Check(g.tiles, cmd) == Done && cmd.playerId != 0
    requires g.tiles[cmd.param1].value <= g.tiles[cmd.param2].value && g.tiles[cmd.param2].owner != 0
    ensures var src, dst := g.tiles[cmd.param1], g.tiles[cmd.param2];
            var t := Step(g, cmd).tiles;
            && (t[cmd.param1].owner == 0 <==> !dst.countered)
            && (t[cmd.param2].owner == 0 <==> dst.countered && src.value == dst.value)
            && t[cmd.param2].countered
            && t[cmd.param2].value == dst.value - (if dst.countered then src.value else 0)
            && t[cmd.param2].(owner := dst.owner, value := dst.value, countered := dst.countered) == dst
            && t[cmd.param1] == (if dst.countered then src.(acted := true) else src.(value := 0, owner := 0))
            && TilesKept(g.tiles, t, {cmd.param1, cmd.param2})
  {
    hide NoFailure, Credit, Touch, Countered, BothDown, WonAttack;
  }

  // ---------- What an attack costs ----------

  /** All that has changed in the records are those of `a` and `d`, by these amounts. */
  ghost predicate Ledger(before: map<nat, Player>, after: map<nat, Player>, a: nat, ra: int, ba: int,
                         d: nat, rd: int, bd: int) {
    Paid(before, after, a, ra, ba) && Paid(before, after, d, rd, bd) && OthersKept(before, after, {a, d})
  }

  lemma LedgerOpen(players: map<nat, Player>, a: nat, d: nat)
    ensures Ledger(players, Touch(Touch(players, a), d), a, 0, 0, d, 0, 0)
  {
    hide NoFailure;
  }

  lemma WrapTwice(n: nat, x: int, y: int)
    ensures ((n + x) % 0x1_0000_0000 + y) % 0x1_0000_0000 == (n + (x + y)) % 0x1_0000_0000
  {
  }

  lemma PaidAgain(before: map<nat, Player>, mid: map<nat, Player>, p: nat, x: int, y: int, resources: int, bases: int)
    requires Paid(before, mid, p, x, y)
    ensures Paid(before, Credit(mid, p, resources, bases), p, x + resources, y + bases)
  {
    hide NoFailure;
    WrapTwice(RecordOf(before, p).resources, x, resources);
    WrapTwice(RecordOf(before, p).baseCount, y, bases);
  }

  lemma PaidApart(before: map<nat, Player>, mid: map<nat, Player>, p: nat, q: nat, x: int, y: int, resources: int,
                  bases: int)
    requires Paid(before, mid, q, x, y) && p in mid && p != q
    ensures Paid(before, Credit(mid, p, resources, bases), q, x, y)
  {
    hide NoFailure;
  }

  lemma KeptCredit(before: map<nat, Player>, mid: map<nat, Player>, p: nat, who: set<nat>, resources: int, bases: int)
    requires OthersKept(before, mid, who) && p in who && p in mid
    ensures OthersKept(before, Credit(mid, p, resources, bases), who)
  {
    hide NoFailure;
  }

  /** A payment by either of the two is added to the ledger. */
  lemma LedgerPay(before: map<nat, Player>, mid: map<nat, Player>, a: nat, ra: int, ba: int, d: nat, rd: int, bd: int,
                  resources: int, bases: int)
    requires a != d && Ledger(before, mid, a, ra, ba, d, rd, bd)
    ensures a in mid && d in mid
    ensures Ledger(before, Credit(mid, a, resources, bases), a, ra + resources, ba + bases, d, rd, bd)
    ensures Ledger(before, Credit(mid, d, resources, bases), a, ra, ba, d, rd + resources, bd + bases)
  {
    PaidAgain(before, mid, a, ra, ba, resources, bases);
    PaidAgain(before, mid, d, rd, bd, resources, bases);
    PaidApart(before, mid, a, d, rd, bd, resources, bases);
    PaidApart(before, mid, d, a, ra, ba, resources, bases);
    KeptCredit(before, mid, a, {a, d}, resources, bases);
    KeptCredit(before, mid, d, {a, d}, resources, bases);
    hide Credit, OthersKept, NoFailure;
  }

  lemma WonRecords(players: map<nat, Player>, a: nat, d: nat, taken: bool, base: bool, owner: nat)
    requires a != d && (taken <==> owner == a)
    ensures var after := WonPlayers(players, a, d, taken);
            && a in after && d in after
            && Ledger(players, if base then BaseTaken(after, a, d, owner) else after,
                      a, if taken then 1 else 0, if base && taken then 1 else 0, d, -1, if base then -1 else 0)
  {
    hide Ledger, Credit, Touch, NoFailure;
    var both := Touch(Touch(players, a), d);
    LedgerOpen(players, a, d);
    LedgerPay(players, both, a, 0, 0, d, 0, 0, 1, 0);
    var earned, ra := if taken then Credit(both, a, 1, 0) else both, if taken then 1 else 0;
    LedgerPay(players, earned, a, ra, 0, d, 0, 0, -1, 0);
    var after := Credit(earned, d, -1, 0);
    if base {
      LedgerPay(players, after, a, ra, 0, d, -1, 0, 0, 1);
      var won := if taken then Credit(after, a, 0, 1) else after;
      LedgerPay(players, won, a, ra, if taken then 1 else 0, d, -1, 0, 0, -1);
    }
  }

  /** A won attack: taking the tile earns the attacker a resource, and the base if it was one; the defender pays a
      resource, and the base. No other record changes. */
  lemma WonAttackPays(g: Game, cmd: Cmd)
    requires cmd.Attack? && Check(g.tiles, cmd) == Done && cmd.playerId != 0
    requires g.tiles[cmd.param1].value > g.tiles[cmd.param2].value
    ensures var dst := g.tiles[cmd.param2];
            Ledger(g.players, Step(g, cmd).players,
                   cmd.playerId, if dst.value == 2 then 0 else 1, if dst.isBase && dst.value != 2 then 1 else 0,
                   dst.owner, -1, if dst.isBase then -1 else 0)
  {
    var from, to := cmd.param1, cmd.param2;
    var dst, after := g.tiles[to], WonTiles(g.tiles, from, to)[to];
    assert after.value > 0 <==> dst.value != 2;
    assert after.owner == cmd.playerId <==> dst.value != 2;
    assert after.isBase == dst.isBase;
    hide WonTiles, Ledger, NoFailure, Credit, Touch, WonPlayers, BaseTaken, LostAttack;
    WonRecords(g.players, cmd.playerId, dst.owner, dst.value != 2, dst.isBase, after.owner);
  }

  lemma LostRecords(g: Game, a: nat, d: nat, dies: bool, falls: bool, fromBase: bool, toBase: bool)
    requires a != d && !(dies && falls)
    ensures var h := Countered(g, a, d, dies, fromBase); var after := if falls then BothDown(h, a, d, toBase) else h;
            Ledger(g.players, after.players,
                   a, if dies || falls then -1 else 0, if dies && fromBase then -1 else 0,
                   d, if falls then -1 else 0, if falls && toBase then -1 else 0)
  {
    hide Ledger, Credit, Touch, NoFailure;
    var both := Touch(Touch(g.players, a), d);
    LedgerOpen(g.players, a, d);
    LedgerPay(g.players, both, a, 0, 0, d, 0, 0, -1, 0);
    if dies {
      LedgerPay(g.players, Credit(both, a, -1, 0), a, -1, 0, d, 0, 0, 0, -1);
    } else if falls {
      LedgerPay(g.players, Credit(both, a, -1, 0), a, -1, 0, d, 0, 0, -1, 0);
      LedgerPay(g.players, Credit(Credit(both, a, -1, 0), d, -1, 0), a, -1, 0, d, -1, 0, 0, -1);
    }
  }

  /** A lost attack: a destroyed attacker pays a resource, and the base if it was one. When the defender falls both pay
      a resource, and the defender the base. No other record changes. */
  lemma LostAttackPays(g: Game, cmd: Cmd)
    requires cmd.Attack? && Check(g.tiles, cmd) == Done && cmd.playerId != 0
    requires g.tiles[cmd.param1].value <= g.tiles[cmd.param2].value
    ensures var src, dst := g.tiles[cmd.param1], g.tiles[cmd.param2];
            var dies, falls := !dst.countered, dst.countered && src.value == dst.value;
            Ledger(g.players, Step(g, cmd).players,
                   src.owner, if dies || falls then -1 else 0, if dies && src.isBase then -1 else 0,
                   dst.owner, if falls then -1 else 0, if falls && dst.isBase then -1 else 0)
  {
    var from, to := cmd.param1, cmd.param2;
    var src, dst := g.tiles[from], g.tiles[to];
    hide LostTiles, Ledger, NoFailure, Credit, Touch, Countered, BothDown, WonAttack;
    LostToZero(g.tiles, from, to);
    LostRecords(g.(tiles := LostTiles(g.tiles, from, to)), src.owner, dst.owner, !dst.countered,
                dst.countered && src.value == dst.value, src.isBase, dst.isBase);
  }

  /** The tile a move or a won attack came from is spent: no move or attack from it is allowed until it grows. */
  lemma Spent(g: Game, cmd: Cmd, next: Cmd)
    requires Check(g.tiles, cmd) == Done && cmd.playerId != 0
    requires cmd.Move? || (cmd.Attack? && g.tiles[cmd.param1].value > g.tiles[cmd.param2].value)
    requires (next.Move? || next.Attack?) && next.param1 == cmd.param1
    ensures var h := Step(g, cmd); var grown := Step(h, Grow(cmd.playerId, cmd.param1, 1));
            && Check(h.tiles, next) != Done
            && (next.Move? && next.playerId == cmd.playerId && Check(g.tiles, next) == Done ==>
                  (Check(grown.tiles, next) == Done <==> grown.tiles[next.param2].owner == cmd.playerId))
  {
    if cmd.Move? {
      MoveOutcome(g, cmd);
    } else {
      WonAttackOutcome(g, cmd);
    }
    var h := Step(g, cmd);
    hide Step, NoFailure, Paid, OthersKept;
    GrowOutcome(h, Grow(cmd.playerId, cmd.param1, 1));
  }

  /** Every player of a match has the seat of its place and starts with nothing. */
  lemma {:induction false} SeatOf(ids: seq<nat>, i: nat)
    requires Distinct(ids) && i < |ids|
    ensures ids[i] in Seats(ids) && Seats(ids)[ids[i]] == Player(i, 0, 0, false)
    ensures forall p :: p in Seats(ids) <==> p in ids
    decreases |ids|
  {
    var init := ids[..|ids| - 1];
    assert ids == init + [ids[|init|]];
    if i < |init| {
      SeatOf(init, i);
    } else if init != [] {
      SeatOf(init, 0);
    }
  }

  // ---------- The object ----------

  /** The tile after the tiles of the players in `lost` have been cleared. */
  function ClearedTile(t: Tile, lost: set<nat>): Tile {
    if t.owner in lost then Tile(0, 0, t.isBase, false, false) else t
  }

  /** `after` is `before` with the tiles of the players in `lost` cleared. */
  ghost predicate Cleared(before: seq<Tile>, after: seq<Tile>, lost: set<nat>) {
    |after| == |before| && forall i :: 0 <= i < |before| ==> after[i] == ClearedTile(before[i], lost)
  }

  lemma ClearedThen(a: seq<Tile>, b: seq<Tile>, c: seq<Tile>, lost: set<nat>, p: nat)
    requires Cleared(a, b, lost) && Cleared(b, c, {p})
    ensures Cleared(a, c, lost + {p})
  {
  }

  lemma ClearedNone(a: seq<Tile>)
    ensures forall b :: Cleared(a, b, {}) <==> a == b
  {
  }

  /** The players recorded as failed, and those of them without a base. */
  function Failed(players: map<nat, Player>): set<nat> {
    set p | p in players && players[p].failure
  }

  function Lost(players: map<nat, Player>): set<nat> {
    set p | p in players && players[p].failure && players[p].baseCount == 0
  }

  /** What the end check concludes from the failed players it has met: `single` only if at most one of them is
      not 0, and then `last` is that one; not `single` only if there are two. */
  ghost predicate Concluded(failed: set<nat>, single: bool, last: nat) {
    && (last == 0 || last in failed)
    && (single ==> forall p :: p in failed && p != 0 ==> p == last)
    && (!single ==> exists p, q :: p in failed && q in failed && p != q)
  }

  lemma ConcludedNext(failed: set<nat>, single: bool, last: nat, p: nat)
    requires Concluded(failed, single, last) && p !in failed
    ensures Concluded(failed + {p}, single && (last == 0 || last == p), p)
  {
    var next := failed + {p};
    if single && last != 0 && last != p {
      assert last in next && p in next;
    } else if !single {
      var q, r :| q in failed && r in failed && q != r;
      assert q in next && r in next;
    }
  }

  /** The failed players the end check has met when it still has to look at `rest`. */
  function FailedMet(players: map<nat, Player>, rest: set<nat>): set<nat> {
    Failed(players) - rest
  }

  function LostMet(players: map<nat, Player>, rest: set<nat>): set<nat> {
    Lost(players) - rest
  }

  lemma StartMeeting(players: map<nat, Player>)
    ensures FailedMet(players, players.Keys) == {} && LostMet(players, players.Keys) == {} && Concluded({}, true, 0)
    ensures FailedMet(players, {}) == Failed(players) && LostMet(players, {}) == Lost(players)
  {
  }

  lemma Meet(players: map<nat, Player>, rest: set<nat>, p: nat)
    requires p in rest && p in players
    ensures p !in FailedMet(players, rest)
    ensures FailedMet(players, rest - {p})
            == if players[p].failure then FailedMet(players, rest) + {p} else FailedMet(players, rest)
    ensures LostMet(players, rest - {p})
            == if players[p].failure && players[p].baseCount == 0 then LostMet(players, rest) + {p}
               else LostMet(players, rest)
  {
  }

  lemma FailsAgain(players: map<nat, Player>, p: nat)
    requires p in players && players[p].failure
    ensures players[p := players[p].(failure := true)] == players
  {
  }

  /** What a check that concludes this way has found, player by player and tile by tile: the tiles of the failed
      players without a base are cleared, `single` means that all failed players but 0 are `last`, and otherwise at
      least two have failed. */
  lemma CheckMeans(players: map<nat, Player>, before: seq<Tile>, after: seq<Tile>, single: bool, last: nat)
    requires Concluded(Failed(players), single, last) && Cleared(before, after, Lost(players))
    ensures |after| == |before|
    ensures forall i :: 0 <= i < |before| ==>
              var was := before[i];
              after[i] == if was.owner in players && players[was.owner].failure && players[was.owner].baseCount == 0
                          then Tile(0, 0, was.isBase, false, false) else was
    ensures single ==> forall p :: p in players && players[p].failure && p != 0 ==> p == last
    ensures !single ==> exists p, q :: p in players && players[p].failure && q in players && players[q].failure && p != q
    ensures last != 0 ==> last in players && players[last].failure
  {
    assert forall p :: p in players && players[p].failure ==> p in Failed(players);
    if !single {
      var p, q :| p in Failed(players) && q in Failed(players) && p != q;
      assert players[p].failure && players[q].failure;
    }
  }

  lemma NoneFailed(players: map<nat, Player>, single: bool, last: nat)
    requires NoFailure(players) && Concluded(Failed(players), single, last)
    ensures Failed(players) == {} && Lost(players) == {} && single && last == 0
  {
  }

  class GameCmdHandler {
    var tiles: array<Tile>
    var players: map<nat, Player>
    var ticking: bool
    var tickInterval: nat
    /** A tick is scheduled on the timer. */
    var scheduled: bool
    var tick: nat
    var mapName: string
    var currentPlayerId: nat
    const hasCallback: bool
    var ended: seq<nat>

    ghost function State(): Game
      reads this, tiles
    {
      Game(tiles[..], players, hasCallback, ended)
    }

    constructor (hasCallback: bool)
      ensures State() == Game([], map[], hasCallback, []) && fresh(tiles)
      ensures !ticking && !scheduled && tickInterval == 50 && tick == 0 && mapName == "" && currentPlayerId == 0
    {
      this.hasCallback := hasCallback;
      tiles := new Tile[0];
      players, ticking, ended := map[], false, [];
      tickInterval, scheduled, tick, mapName, currentPlayerId := 50, false, 0, "", 0;
    }

    /** Starts the timer with this interval, unless it is running. */
    method StartTicking(interval: nat)
      modifies this`ticking, this`tickInterval, this`scheduled
      ensures ticking
      ensures if old(ticking) then tickInterval == old(tickInterval) && scheduled == old(scheduled)
              else tickInterval == interval && scheduled
    {
      if ticking {
        return;
      }
      tickInterval := interval;
      ticking := true;
      ScheduleNextTick();
    }

    method StopTicking()
      modifies this`ticking, this`scheduled
      ensures !ticking && !scheduled
    {
      ticking := false;
      scheduled := false;
    }

    method ScheduleNextTick()
      modifies this`scheduled
      ensures scheduled == (ticking || old(scheduled))
    {
      if !ticking {
        return;
      }
      scheduled := true;
    }

    /** The handler of the timer: a tick counts and schedules the next one as long as the handler is ticking. */
    method OnTimer(error: bool)
      requires scheduled
      modifies this`scheduled, this`tick
      ensures scheduled == (ticking && !error)
      ensures tick == if ticking && !error then (old(tick) + tickInterval) % 0x1_0000_0000_0000_0000 else old(tick)
    {
      scheduled := false;
      if error || !ticking {
        return;
      }
      tick := (tick + tickInterval) % 0x1_0000_0000_0000_0000;
      ScheduleNextTick();
    }

    method InitGameState()
      modifies this`players
      ensures players == map[]
    {
      players := map[];
    }

    /** `mapData` is what loading the selected map returned; without a map this throws, and all but the map name
        stays as it is. */
    method StartGame(ids: seq<nat>, mapPath: string, ownerId: nat, mapData: array?<Tile>) returns (ok: bool)
      modifies this`tiles, this`players, this`mapName, this`currentPlayerId, this`tick
      ensures ok == (mapData != null) && mapName == mapPath
      ensures ok ==> fresh(tiles) && tiles[..] == mapData[..]
      ensures ok ==> players == old(players) + Seats(ids) && currentPlayerId == ownerId && tick == 0
      ensures !ok ==> tiles == old(tiles) && players == old(players)
      ensures !ok ==> currentPlayerId == old(currentPlayerId) && tick == old(tick)
    {
      mapName := mapPath;
      if mapData == null {
        return false;
      }
      tiles := new Tile[mapData.Length](i requires 0 <= i < mapData.Length reads mapData => mapData[i]);
      assert tiles[..] == mapData[..];
      currentPlayerId := ownerId;
      tick := 0;
      for i := 0 to |ids|
        modifies this`players
        invariant players == old(players) + Seats(ids[..i])
      {
        assert ids[..i + 1][..i] == ids[..i];
        players := players[ids[i] := Player(i, 0, 0, false)];
      }
      assert ids[..|ids|] == ids;
      return true;
    }

    method Validate(cmd: Cmd) returns (outcome: Outcome)
      ensures outcome == Check(tiles[..], cmd)
    {
      match cmd
      case Move(p, from, to) =>
        if !(0 <= from < tiles.Length && 0 <= to < tiles.Length) {
          return NoSuchTile;
        }
        var src, dst := tiles[from], tiles[to];
        return if from != to && src.owner == p && dst.owner == p && src.value > 1 then Done else Refused;
      case Attack(p, from, to) =>
        if !(0 <= from < tiles.Length && 0 <= to < tiles.Length) {
          return NoSuchTile;
        }
        var src, dst := tiles[from], tiles[to];
        return if from != to && src.owner == p && dst.owner != p && src.value > 1 then Done else Refused;
      case Grow(p, at, _) =>
        if !(0 <= at < tiles.Length) {
          return NoSuchTile;
        }
        return if tiles[at].owner == p && tiles[at].value > 0 then Done else Refused;
      case Unknown(_) => return Refused;
    }

    method ClearTilesOfPlayer(p: nat)
      modifies tiles
      ensures Cleared(old(tiles[..]), tiles[..], {p})
      ensures forall i :: 0 <= i < tiles.Length ==>
                tiles[i] == if old(tiles[i]).owner == p then Tile(0, 0, old(tiles[i]).isBase, false, false) else old(tiles[i])
    {
      for k := 0 to tiles.Length
        invariant forall i :: 0 <= i < tiles.Length ==>
                    tiles[i] == if i < k then ClearedTile(old(tiles[i]), {p}) else old(tiles[i])
      {
        if tiles[k].owner == p {
          tiles[k] := tiles[k].(owner := 0, value := 0, countered := false, acted := false);
        }
      }
    }

    /** Goes over the players in the order of the map. Only players that have failed already are looked at, so none
        fails here: the tiles of those without a base are cleared, and the end is announced iff `single`. */
    method GameEndCheck() returns (ghost single: bool, ghost last: nat)
      modifies tiles, this`players, this`ended
      ensures players == old(players) && Concluded(Failed(players), single, last)
      ensures Cleared(old(tiles[..]), tiles[..], Lost(players))
      ensures ended == old(ended) + (if single && hasCallback then [last] else [])
      ensures NoFailure(players) ==> single && last == 0 && tiles[..] == old(tiles[..])
    {
      ghost var was, before := players, tiles[..];
      StartMeeting(was);
      ClearedNone(before);
      hide Concluded, FailedMet, LostMet, Failed, Lost, NoFailure, Cleared;
      var singlePlayerLeft, lastPlayerId := true, 0;
      var rest := players.Keys;
      while rest != {}
        modifies tiles, this`players
        invariant players == was && rest <= was.Keys
        invariant Concluded(FailedMet(was, rest), singlePlayerLeft, lastPlayerId)
        invariant Cleared(before, tiles[..], LostMet(was, rest))
        decreases |rest|
      {
        var p :| p in rest;
        Meet(was, rest, p);
        if players[p].failure {
          ConcludedNext(FailedMet(was, rest), singlePlayerLeft, lastPlayerId, p);
          if lastPlayerId != 0 && lastPlayerId != p {
            singlePlayerLeft := false;
          }
          lastPlayerId := p;
          if players[p].baseCount == 0 {
            FailsAgain(was, p);
            players := players[p := players[p].(failure := true)];
            assert players == was;
            ghost var found := tiles[..];
            ClearTilesOfPlayer(p);
            ClearedThen(before, found, tiles[..], LostMet(was, rest), p);
          }
        }
        rest := rest - {p};
      }
      if singlePlayerLeft && hasCallback {
        ended := ended + [lastPlayerId];
      }
      single, last := singlePlayerLeft, lastPlayerId;
      if NoFailure(was) {
        NoneFailed(was, single, last);
      }
    }

    method ProcessMove(p: nat, from: nat, to: nat)
      requires from < tiles.Length && to < tiles.Length && from != to
      modifies tiles, this`players
      ensures State() == MoveStep(old(State()), p, from, to)
    {
      hide NoFailure, Credit, Touch;
      tiles[from] := tiles[from].(value := 1, acted := true);
      tiles[to] := tiles[to].(owner := tiles[from].owner, value := Add(tiles[to].value, tiles[from].value - 1));
      players := Credit(Touch(players, p), p, 1, 0);
      if tiles[to].isBase {
        players := Credit(players, p, 0, 1);
      }
    }

    method ProcessGrow(at: nat, amount: int)
      requires at < tiles.Length
      modifies tiles
      ensures State() == GrowStep(old(State()), at, amount)
    {
      tiles[at] := tiles[at].(value := Add(tiles[at].value, amount));
    }

    /** The end check as the rules call it: nobody has failed. */
    method Notify()
      requires NoFailure(players)
      modifies tiles, this`players, this`ended
      ensures State() == EndCheck(old(State())) && players == old(players)
    {
      var _, _ := GameEndCheck();
    }

    /** What a won attack does to the two tiles. */
    method SettleWin(from: nat, to: nat)
      requires from < tiles.Length && to < tiles.Length && from != to
      modifies tiles
      ensures tiles[..] == WonTiles(old(tiles[..]), from, to)
    {
      tiles[from] := tiles[from].(value := 1);
      tiles[to] := tiles[to].(value := Sub(Sub(tiles[to].value, tiles[from].value), 1));
      if tiles[to].value > 0 {
        tiles[to] := tiles[to].(owner := tiles[from].owner);
      } else {
        tiles[to] := tiles[to].(owner := 0);
      }
    }

    method ProcessWin(from: nat, to: nat)
      requires from < tiles.Length && to < tiles.Length && from != to && NoFailure(players)
      modifies tiles, this`players, this`ended
      ensures State() == WonAttack(old(State()), from, to)
    {
      hide NoFailure, Credit, Touch, EndCheck, WonTiles;
      var winner, loser := tiles[from].owner, tiles[to].owner;
      players := Touch(Touch(players, winner), loser);
      SettleWin(from, to);
      if tiles[to].value > 0 {
        players := Credit(players, winner, 1, 0);
      }
      players := Credit(players, loser, -1, 0);
      if tiles[to].isBase {
        if tiles[to].owner == winner {
          players := Credit(players, winner, 0, 1);
        }
        players := Credit(players, loser, 0, -1);
        Notify();
      }
    }

    /** What a lost attack does to the two tiles. */
    method SettleLoss(from: nat, to: nat)
      requires from < tiles.Length && to < tiles.Length && from != to
      modifies tiles
      ensures tiles[..] == LostTiles(old(tiles[..]), from, to)
    {
      if !tiles[to].countered {
        tiles[to] := tiles[to].(countered := true);
        tiles[from] := tiles[from].(value := 0, owner := 0);
      } else {
        tiles[from] := tiles[from].(acted := true);
      }
      tiles[to] := tiles[to].(value := Sub(tiles[to].value, tiles[from].value));
      if tiles[to].value == 0 {
        tiles[to] := tiles[to].(owner := 0);
      }
    }

    method ProcessLoss(from: nat, to: nat)
      requires from < tiles.Length && to < tiles.Length && from != to && NoFailure(players)
      modifies tiles, this`players, this`ended
      ensures State() == LostAttack(old(State()), from, to)
    {
      hide NoFailure, Credit, Touch, LostTiles;
      var attacker, defender, dies := tiles[from].owner, tiles[to].owner, !tiles[to].countered;
      var fromBase, toBase := tiles[from].isBase, tiles[to].isBase;
      players := Touch(Touch(players, attacker), defender);
      SettleLoss(from, to);
      ghost var settled := old(State()).(tiles := tiles[..]);
      if dies {
        players := Credit(players, attacker, -1, 0);
        if fromBase {
          players := Credit(players, attacker, 0, -1);
          Notify();
        }
      }
      assert State() == Countered(settled, attacker, defender, dies, fromBase);
      hide Countered;
      if tiles[to].value == 0 {
        players := Credit(players, attacker, -1, 0);
        players := Credit(players, defender, -1, 0);
        if toBase {
          players := Credit(players, defender, 0, -1);
          Notify();
        }
      }
    }

    /** Runs a command that is allowed; any other throws and changes nothing. */
    method ProcessCommand(cmd: Cmd) returns (outcome: Outcome)
      requires NoFailure(players)
      modifies tiles, this`players, this`ended
      ensures State() == Step(old(State()), cmd) && NoFailure(players)
      ensures outcome == Check(old(tiles[..]), cmd)
    {
      hide NoFailure, MoveStep, WonAttack, LostAttack, GrowStep;
      outcome := Validate(cmd);
      StepNoFailure(State(), cmd);
      if outcome != Done {
        return;
      }
      match cmd
      case Move(p, from, to) => ProcessMove(p, from, to);
      case Attack(_, from, to) =>
        if tiles[from].value > tiles[to].value {
          ProcessWin(from, to);
        } else {
          ProcessLoss(from, to);
        }
      case Grow(_, at, amount) => ProcessGrow(at, amount);
    }
  }
}

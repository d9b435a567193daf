// The non-drawing part of the scenes (scene_manager.py): the round state
// machine of the gameplay scene, the menu's resizing of the colour list and
// of its per-snake widgets, the ordering of the game-over score table, and
// the scene switch.
module Scenes {
  import opened Globals
  import opened Torus
  import opened SnakeRules
  import opened CollisionRules
  import opened Snakes
  import opened Fruits

  const COUNTDOWN_SECS: real := 3.0
  const GAME_OVER_TIME_SECS: real := 180.0

  // ---------------------------------------------------------------------------
  // The round as a value

  /** The countdown, the round timer and Snake.pause. */
  datatype Round = Round(countdown: real, timer: real, paused: bool)

  /** A round after one tick, and whether that tick ended it. */
  datatype RoundTick = RoundTick(round: Round, over: bool)

  /** Gameplay.update: the countdown runs down and is held at -1; the first
      time it passes -1 while paused, the round (re)starts at 180 seconds and
      the snakes and spawner are released; the round timer runs only while not
      paused (including the tick that released it); once it is below 0 the
      round is over and everything is paused again. */
  function Tick(r: Round, dt: real): (t: RoundTick)
    ensures t.round.countdown == (if r.countdown - dt < -1.0 then -1.0 else r.countdown - dt)
    ensures t.round.countdown >= -1.0
    ensures r.paused && r.countdown - dt >= -1.0 ==> t.round.timer == r.timer
    ensures r.paused && r.countdown - dt < -1.0 ==> t.round.timer == GAME_OVER_TIME_SECS - dt
    ensures !r.paused ==> t.round.timer == r.timer - dt
    ensures t.over <==> t.round.timer < 0.0
    ensures t.round.paused <==> t.over || (r.paused && r.countdown - dt >= -1.0)
  {
    var c := r.countdown - dt;
    var c1 := if c < -1.0 then -1.0 else c;
    var restart := c < -1.0 && r.paused;
    var timer1 := if restart then GAME_OVER_TIME_SECS else r.timer;
    var paused1 := if restart then false else r.paused;
    var timer2 := if !paused1 then timer1 - dt else timer1;
    if timer2 < 0.0 then RoundTick(Round(c1, timer2, true), true)
    else RoundTick(Round(c1, timer2, paused1), false)
  }

  /** Successive ticks of a round that has not ended. */
  function RoundRun(r: Round, dts: seq<real>): Round
    decreases |dts|
  {
    if dts == [] then r
    else
      var t := Tick(r, dts[0]);
      if t.over then t.round else RoundRun(t.round, dts[1..])
  }

  /** While the countdown has not passed -1, a paused round stays paused with
      its timer frozen, and the countdown has gone down by the elapsed time. */
  lemma {:induction false} CountdownFreezesTimer(r: Round, dts: seq<real>)
    requires r.paused && r.timer >= 0.0
    requires forall k :: 1 <= k <= |dts| ==> r.countdown - Sum(dts[..k]) >= -1.0
    ensures RoundRun(r, dts) == Round(r.countdown - Sum(dts), r.timer, true)
    decreases |dts|
  {
    if dts != [] {
      SumPrefix(dts, 1);
      var r1 := Round(r.countdown - dts[0], r.timer, true);
      assert Tick(r, dts[0]) == RoundTick(r1, false);
      forall k | 1 <= k <= |dts| - 1 ensures r1.countdown - Sum(dts[1..][..k]) >= -1.0 {
        SumPrefix(dts, k + 1);
        assert r.countdown - Sum(dts[..k + 1]) >= -1.0;
      }
      CountdownFreezesTimer(r1, dts[1..]);
    }
  }

  /** Once the round runs, with the countdown held at -1 and frame times that
      are not negative, the round timer goes down by the elapsed time and the
      round goes on for as long as that stays at or above 0. */
  lemma {:induction false} RunningRoundCountsDown(r: Round, dts: seq<real>)
    requires !r.paused && r.countdown == -1.0
    requires forall k :: 0 <= k < |dts| ==> dts[k] >= 0.0
    requires forall k :: 1 <= k <= |dts| ==> r.timer - Sum(dts[..k]) >= 0.0
    ensures RoundRun(r, dts) == Round(-1.0, r.timer - Sum(dts), false)
    decreases |dts|
  {
    if dts != [] {
      SumPrefix(dts, 1);
      var r1 := Round(-1.0, r.timer - dts[0], false);
      assert Tick(r, dts[0]) == RoundTick(r1, false);
      forall k | 1 <= k <= |dts| - 1 ensures r1.timer - Sum(dts[1..][..k]) >= 0.0 {
        SumPrefix(dts, k + 1);
        assert r.timer - Sum(dts[..k + 1]) >= 0.0;
      }
      assert forall k :: 0 <= k < |dts[1..]| ==> dts[1..][k] == dts[k + 1];
      RunningRoundCountsDown(r1, dts[1..]);
    }
  }

  // ---------------------------------------------------------------------------
  // Scene switching

  datatype SceneType = MainMenuScene | GameplayScene | GameOverScene

  /** SceneManager: only the current scene's type. Clearing the old scene and
      building the new one belong to the game engine. */
  class SceneManager {
    var sceneType: SceneType

    constructor ()
      ensures sceneType == MainMenuScene
    {
      sceneType := MainMenuScene;
    }

    method SetScene(t: SceneType)
      modifies this`sceneType
      ensures sceneType == t
    {
      sceneType := t;
    }
  }

  // ---------------------------------------------------------------------------
  // Gameplay

  /** The gameplay scene. The snakes' Session holds Snake.pause; the spawner's
      own flag is kept equal to it. */
  class Gameplay {
    var countdown: real
    var timer: real
    const session: Session
    const manager: CollisionManager
    const spawner: FruitsSpawner
    const scenes: SceneManager

    ghost predicate Valid()
      reads this, session, spawner
    {
      spawner.pause == session.paused
    }

    function Current(): Round
      reads this, session
    {
      Round(countdown, timer, session.paused)
    }

    /** Gameplay.__init__ without fonts, surfaces and music: a 180-second round
        behind a 3-second countdown, everything paused, the collision registry
        and skin table emptied, then the bots (positions, headings and first
        actions stand for the random draws) and the players (at (W, H/2))
        created in that order. Every snake needs a colour, which the source
        asserts. */
    constructor (session: Session, manager: CollisionManager, spawner: FruitsSpawner,
                 scenes: SceneManager, settings: Settings,
                 botSpots: nat -> Pos, headings: nat -> Pos, actions: nat -> AiAction)
      requires session.snakeCount + settings.botsCount + settings.playersCount <= |settings.colors|
      modifies session, manager, spawner`pause
      ensures Valid() && Current() == Round(COUNTDOWN_SECS, GAME_OVER_TIME_SECS, true)
      ensures spawner.fruits == old(spawner.fruits) && spawner.spawnTimer == old(spawner.spawnTimer)
      ensures this.session == session && this.manager == manager
      ensures this.spawner == spawner && this.scenes == scenes
      ensures manager.Valid() && manager.cutSkins == map[]
      ensures |manager.snakes| == settings.botsCount + settings.playersCount
      ensures session.snakeCount == old(session.snakeCount) + |manager.snakes|
      ensures forall i :: 0 <= i < |manager.snakes| ==>
                && manager.snakes[i].id == old(session.snakeCount) + i
                && (manager.snakes[i].isBot <==> i < settings.botsCount)
                && |manager.snakes[i].nodes| == 11 && fresh(manager.snakes[i])
                && manager.snakes[i].score == 0
                && manager.snakes[i].color == settings.colors[manager.snakes[i].id]
      ensures forall i :: 0 <= i < settings.botsCount ==> manager.snakes[i].nodes[10] == botSpots(i)
      ensures forall i :: settings.botsCount <= i < |manager.snakes| ==>
                manager.snakes[i].nodes[10] == Pos(W, H / 2)
    {
      this.session := session;
      this.manager := manager;
      this.spawner := spawner;
      this.scenes := scenes;
      timer := GAME_OVER_TIME_SECS;
      countdown := COUNTDOWN_SECS;
      new;
      session.paused := true;
      spawner.pause := true;
      manager.Reset();
      SpawnSnakes(settings, botSpots, headings, actions);
    }

    /** The two creation loops of Gameplay.__init__: the bots, then the
        players, numbered on from the session's count, into an empty registry. */
    method SpawnSnakes(settings: Settings, botSpots: nat -> Pos, headings: nat -> Pos, actions: nat -> AiAction)
      requires session.snakeCount + settings.botsCount + settings.playersCount <= |settings.colors|
      requires manager.Valid() && manager.snakes == [] && manager.cutSkins == map[]
      modifies session, manager
      ensures session.paused == old(session.paused)
      ensures manager.Valid() && manager.cutSkins == map[]
      ensures |manager.snakes| == settings.botsCount + settings.playersCount
      ensures session.snakeCount == old(session.snakeCount) + |manager.snakes|
      ensures forall i :: 0 <= i < |manager.snakes| ==>
                && manager.snakes[i].id == old(session.snakeCount) + i
                && (manager.snakes[i].isBot <==> i < settings.botsCount)
                && |manager.snakes[i].nodes| == 11 && fresh(manager.snakes[i])
                && manager.snakes[i].score == 0
                && manager.snakes[i].color == settings.colors[manager.snakes[i].id]
      ensures forall i :: 0 <= i < settings.botsCount ==> manager.snakes[i].nodes[10] == botSpots(i)
      ensures forall i :: settings.botsCount <= i < |manager.snakes| ==>
                manager.snakes[i].nodes[10] == Pos(W, H / 2)
    {
      var c0 := session.snakeCount;
      var k := 0;
      while k < settings.botsCount + settings.playersCount
        invariant 0 <= k <= settings.botsCount + settings.playersCount
        invariant session.snakeCount == c0 + k && session.paused == old(session.paused)
        invariant manager.Valid() && manager.cutSkins == map[] && |manager.snakes| == k
        invariant forall i :: 0 <= i < k ==>
                    && manager.snakes[i].id == c0 + i
                    && (manager.snakes[i].isBot <==> i < settings.botsCount)
                    && |manager.snakes[i].nodes| == 11 && fresh(manager.snakes[i])
                    && manager.snakes[i].score == 0
                    && manager.snakes[i].color == settings.colors[manager.snakes[i].id]
        invariant forall i :: 0 <= i < k && i < settings.botsCount ==> manager.snakes[i].nodes[10] == botSpots(i)
        invariant forall i :: settings.botsCount <= i < k ==> manager.snakes[i].nodes[10] == Pos(W, H / 2)
      {
        var bot := k < settings.botsCount;
        var start := if bot then botSpots(k) else Pos(W, H / 2);
        ghost var before := manager.snakes;
        var s := new Snake(session, manager, settings, start, headings(k), bot, actions(k));
        assert manager.snakes == before + [s] && manager.snakes[k] == s;
        assert forall i :: 0 <= i < k ==> manager.snakes[i] == before[i];
        k := k + 1;
      }
    }

    /** Gameplay.update on the round state. When the round ends the scene
        switches to game over and the skin table is emptied, while the
        registry is kept for the score table. */
    method Update(dt: real)
      requires Valid()
      modifies this`countdown, this`timer, session`paused, spawner`pause
      modifies manager`cutSkins, scenes`sceneType
      ensures Valid()
      ensures Current() == Tick(old(Current()), dt).round
      ensures manager.snakes == old(manager.snakes)
      ensures Tick(old(Current()), dt).over ==> manager.cutSkins == map[] && scenes.sceneType == GameOverScene
      ensures !Tick(old(Current()), dt).over ==>
                manager.cutSkins == old(manager.cutSkins) && scenes.sceneType == old(scenes.sceneType)
    {
      countdown := countdown - dt;
      if countdown < -1.0 {
        countdown := -1.0;
        if session.paused {
          timer := GAME_OVER_TIME_SECS;
          session.paused := false;
          spawner.pause := false;
        }
      }
      if !session.paused {
        timer := timer - dt;
      }
      if timer < 0.0 {
        session.paused := true;
        spawner.pause := true;
        scenes.SetScene(GameOverScene);
        manager.cutSkins := map[];
      }
    }

    /** Gameplay.kill: the next round numbers its snakes from 0 again. */
    method Kill()
      modifies session`snakeCount
      ensures session.snakeCount == 0
    {
      session.snakeCount := 0;
    }
  }

  // ---------------------------------------------------------------------------
  // The main menu's resizing

  /** A colour picker for snake `index`, created with that snake's colour. */
  datatype ColorPicker = ColorPicker(index: nat, color: Color)

  /** The settings row of player `player`, with its colour picker. */
  datatype PlayerRow = PlayerRow(player: nat, color: Color)

  /** MainMenu's lists of bot colour pickers and player rows. Their layout is
      not part of this model. */
  class MainMenu {
    const settings: Settings
    var botPickers: seq<ColorPicker>
    var playerRows: seq<PlayerRow>

    /** Entry i of either list belongs to snake (bot or player) i. */
    ghost predicate Valid()
      reads this
    {
      && (forall i :: 0 <= i < |botPickers| ==> botPickers[i].index == i)
      && (forall i :: 0 <= i < |playerRows| ==> playerRows[i].player == i)
    }

    /** MainMenu.__init__'s lists: both start empty and are filled to the
        current counts. */
    constructor (s: Settings)
      requires s.botsCount > 0 ==> |s.colors| >= s.botsCount
      requires s.playersCount > 0 ==> |s.colors| >= s.botsCount + s.playersCount
      ensures settings == s && Valid()
      ensures |botPickers| == s.botsCount && |playerRows| == s.playersCount
    {
      settings := s;
      botPickers := [];
      playerRows := [];
      new;
      UpdateBotsColorPickers();
      UpdatePlayersSettings();
    }

    /** MainMenu.update_bots_color_pickers: grows the list up to bots_count
        with pickers for the next bots' colours (asserting there are enough
        colours), or cuts it down to bots_count. */
    method UpdateBotsColorPickers()
      requires Valid()
      requires |botPickers| < settings.botsCount ==> |settings.colors| >= settings.botsCount
      modifies this`botPickers
      ensures Valid() && |botPickers| == settings.botsCount
      ensures forall i :: 0 <= i < |botPickers| ==>
                botPickers[i] == if i < |old(botPickers)| then old(botPickers)[i]
                                 else ColorPicker(i, settings.colors[i])
    {
      if |botPickers| < settings.botsCount {
        var i := |botPickers|;
        while i < settings.botsCount
          invariant |old(botPickers)| <= i <= settings.botsCount && |botPickers| == i
          invariant Valid()
          invariant forall j :: 0 <= j < i ==>
                      botPickers[j] == if j < |old(botPickers)| then old(botPickers)[j]
                                       else ColorPicker(j, settings.colors[j])
        {
          botPickers := botPickers + [ColorPicker(i, settings.colors[i])];
          i := i + 1;
        }
      } else {
        botPickers := botPickers[..settings.botsCount];
      }
    }

    /** MainMenu.update_players_settings: grows the rows up to players_count,
        each row's picker taking colour bots_count + player, or cuts them down
        to players_count. */
    method UpdatePlayersSettings()
      requires Valid()
      requires |playerRows| < settings.playersCount ==> |settings.colors| >= settings.botsCount + settings.playersCount
      modifies this`playerRows
      ensures Valid() && |playerRows| == settings.playersCount
      ensures forall i :: 0 <= i < |playerRows| ==>
                playerRows[i] == if i < |old(playerRows)| then old(playerRows)[i]
                                 else PlayerRow(i, settings.colors[settings.botsCount + i])
    {
      if |playerRows| < settings.playersCount {
        var i := |playerRows|;
        while i < settings.playersCount
          invariant |old(playerRows)| <= i <= settings.playersCount && |playerRows| == i
          invariant Valid()
          invariant forall j :: 0 <= j < i ==>
                      playerRows[j] == if j < |old(playerRows)| then old(playerRows)[j]
                                       else PlayerRow(j, settings.colors[settings.botsCount + j])
        {
          playerRows := playerRows + [PlayerRow(i, settings.colors[settings.botsCount + i])];
          i := i + 1;
        }
      } else {
        playerRows := playerRows[..settings.playersCount];
      }
    }

    /** MainMenu.update_snake_color, the callback of a colour picker: snake
        idx (which must have a colour, as the source asserts) gets the picked
        colour and no other colour changes. */
    method UpdateSnakeColor(idx: nat, color: Color)
      requires idx < |settings.colors|
      modifies settings`colors
      ensures |settings.colors| == |old(settings.colors)| && settings.colors[idx] == color
      ensures forall k :: 0 <= k < |settings.colors| && k != idx ==> settings.colors[k] == old(settings.colors)[k]
    {
      settings.colors := settings.colors[idx := color];
    }

    /** Appends gen(0), gen(1), ... (generate_color in the source) until there
        is a colour for every snake. */
    method GrowColors(gen: nat -> Color)
      modifies settings`colors
      ensures |settings.colors| == Max(|old(settings.colors)|, settings.SnakesCount())
      ensures settings.colors[..|old(settings.colors)|] == old(settings.colors)
      ensures forall k :: |old(settings.colors)| <= k < |settings.colors| ==>
                settings.colors[k] == gen(k - |old(settings.colors)|)
    {
      if settings.SnakesCount() > |settings.colors| {
        var n0 := |settings.colors|;
        var missing := settings.SnakesCount() - |settings.colors|;
        var k := 0;
        while k < missing
          invariant 0 <= k <= missing && |settings.colors| == n0 + k
          invariant settings.colors[..n0] == old(settings.colors)
          invariant forall j :: n0 <= j < n0 + k ==> settings.colors[j] == gen(j - n0)
        {
          settings.colors := settings.colors + [gen(k)];
          k := k + 1;
        }
      }
    }

    /** MainMenu.on_bots_change with the slider's value as a whole number. */
    method OnBotsChange(value: nat, gen: nat -> Color)
      requires Valid()
      modifies settings`botsCount, settings`colors, this`botPickers
      ensures Valid()
      ensures settings.botsCount == value && settings.playersCount == old(settings.playersCount)
      ensures |settings.colors| >= settings.SnakesCount()
      ensures |settings.colors| == Max(|old(settings.colors)|, settings.SnakesCount())
      ensures settings.colors[..|old(settings.colors)|] == old(settings.colors)
      ensures |botPickers| == value
      ensures forall i :: 0 <= i < value ==>
                botPickers[i] == if i < |old(botPickers)| then old(botPickers)[i]
                                 else ColorPicker(i, settings.colors[i])
    {
      settings.botsCount := value;
      GrowColors(gen);
      UpdateBotsColorPickers();
    }

    /** MainMenu.on_players_change with the slider's value as a whole number. */
    method OnPlayersChange(value: nat, gen: nat -> Color)
      requires Valid()
      modifies settings`playersCount, settings`colors, this`playerRows
      ensures Valid()
      ensures settings.playersCount == value && settings.botsCount == old(settings.botsCount)
      ensures |settings.colors| >= settings.SnakesCount()
      ensures |settings.colors| == Max(|old(settings.colors)|, settings.SnakesCount())
      ensures settings.colors[..|old(settings.colors)|] == old(settings.colors)
      ensures |playerRows| == value
      ensures forall i :: 0 <= i < value ==>
                playerRows[i] == if i < |old(playerRows)| then old(playerRows)[i]
                                 else PlayerRow(i, settings.colors[settings.botsCount + i])
    {
      settings.playersCount := value;
      GrowColors(gen);
      UpdatePlayersSettings();
    }
  }

  function Max(a: int, b: int): int { if a < b then b else a }

  // ---------------------------------------------------------------------------
  // The game-over score table

  /** What the table needs of a registered snake: its id, score and colour. */
  datatype Entry = Entry(id: nat, score: nat, color: Color)

  /** One line of the table: "Bot i" or "Player i", the score, the colour. */
  datatype ScoreLine = ScoreLine(isBot: bool, id: nat, score: nat, color: Color)

  /** Puts e in front of the first entry whose score is not above e's. */
  function Insert(e: Entry, s: seq<Entry>): (r: seq<Entry>)
    ensures |r| == |s| + 1
  {
    if s == [] || s[0].score <= e.score then [e] + s
    else [s[0]] + Insert(e, s[1..])
  }

  lemma {:induction false} InsertPermutes(e: Entry, s: seq<Entry>)
    ensures multiset(Insert(e, s)) == multiset(s) + multiset{e}
    decreases |s|
  {
    if s != [] && s[0].score > e.score {
      InsertPermutes(e, s[1..]);
      assert s == [s[0]] + s[1..];
    }
  }

  /** sorted(..., key=score, reverse=True). Python's sort is stable, also
      with reverse=True, so entries with equal scores keep their order. */
  function SortByScore(s: seq<Entry>): (r: seq<Entry>)
    ensures |r| == |s|
  {
    if s == [] then [] else Insert(s[0], SortByScore(s[1..]))
  }

  /** The table holds exactly the registry's entries. */
  lemma {:induction false} SortPermutes(s: seq<Entry>)
    ensures multiset(SortByScore(s)) == multiset(s)
    decreases |s|
  {
    if s != [] {
      SortPermutes(s[1..]);
      InsertPermutes(s[0], SortByScore(s[1..]));
      assert s == [s[0]] + s[1..];
    }
  }

  predicate NonIncreasing(s: seq<Entry>)
  {
    forall i, j :: 0 <= i < j < |s| ==> s[i].score >= s[j].score
  }

  lemma {:induction false} InsertKeepsOrder(e: Entry, s: seq<Entry>)
    requires NonIncreasing(s)
    ensures NonIncreasing(Insert(e, s))
    decreases |s|
  {
    if s == [] || s[0].score <= e.score {
    } else {
      InsertKeepsOrder(e, s[1..]);
      var t := Insert(e, s[1..]);
      // t starts with e or with s[1], both scored at most s[0]
      assert t[0] == e || (|s| > 1 && t[0] == s[1]);
      assert forall j :: 0 <= j < |t| ==> t[0].score >= t[j].score;
      assert Insert(e, s) == [s[0]] + t;
    }
  }

  /** The table is in non-increasing score order. */
  lemma {:induction false} SortedByScore(s: seq<Entry>)
    ensures NonIncreasing(SortByScore(s))
    decreases |s|
  {
    if s != [] {
      SortedByScore(s[1..]);
      InsertKeepsOrder(s[0], SortByScore(s[1..]));
    }
  }

  /** The entries of s with score v, in order. */
  function WithScore(s: seq<Entry>, v: nat): seq<Entry>
  {
    if s == [] then [] else (if s[0].score == v then [s[0]] else []) + WithScore(s[1..], v)
  }

  lemma WithScoreCons(x: Entry, t: seq<Entry>, v: nat)
    ensures WithScore([x] + t, v) == (if x.score == v then [x] else []) + WithScore(t, v)
  {
    assert ([x] + t)[0] == x && ([x] + t)[1..] == t;
  }

  lemma {:induction false} InsertStable(e: Entry, s: seq<Entry>, v: nat)
    ensures WithScore(Insert(e, s), v) == (if e.score == v then [e] else []) + WithScore(s, v)
    decreases |s|
  {
    if s == [] || s[0].score <= e.score {
      WithScoreCons(e, s, v);
    } else {
      var t := Insert(e, s[1..]);
      InsertStable(e, s[1..], v);
      WithScoreCons(s[0], t, v);
      var rest := WithScore(s[1..], v);
      assert WithScore(s, v) == (if s[0].score == v then [s[0]] else []) + rest;
      if e.score == v {
        // s[0] scores more than e, so it is not listed
        assert WithScore(Insert(e, s), v) == [e] + rest;
      } else {
        assert WithScore(t, v) == rest;
      }
    }
  }

  /** Stability: for every score, the entries with that score appear in the
      table in registry order. */
  lemma {:induction false} SortStable(s: seq<Entry>, v: nat)
    ensures WithScore(SortByScore(s), v) == WithScore(s, v)
    decreases |s|
  {
    if s != [] {
      SortStable(s[1..], v);
      InsertStable(s[0], SortByScore(s[1..]), v);
    }
  }

  function EntryOf(s: Snake): Entry
    reads s
  {
    Entry(s.id, s.score, s.color)
  }

  /** The registry's snakes as table entries, in registry order. */
  function Entries(snakes: seq<Snake>): seq<Entry>
    reads set s | s in snakes
  {
    seq(|snakes|, i requires 0 <= i < |snakes| reads set s | s in snakes => EntryOf(snakes[i]))
  }

  /** GameOver.create_score_surs without the text rendering: one line per
      registered snake, highest score first, named a bot exactly when its id
      is below bots_count. */
  method CreateScoreLines(manager: CollisionManager, settings: Settings) returns (res: seq<ScoreLine>)
    ensures |res| == |manager.snakes|
    ensures forall k :: 0 <= k < |res| ==>
              var e := SortByScore(Entries(manager.snakes))[k];
              res[k] == ScoreLine(e.id < settings.botsCount, e.id, e.score, e.color)
    ensures forall i, j :: 0 <= i < j < |res| ==> res[i].score >= res[j].score
  {
    var sorted := SortByScore(Entries(manager.snakes));
    SortedByScore(Entries(manager.snakes));
    res := [];
    var i := 0;
    while i < |sorted|
      invariant 0 <= i <= |sorted| && |res| == i
      invariant forall k :: 0 <= k < i ==>
                  res[k] == ScoreLine(sorted[k].id < settings.botsCount, sorted[k].id, sorted[k].score, sorted[k].color)
    {
      var e := sorted[i];
      var isBot := e.id < settings.botsCount;
      res := res + [ScoreLine(isBot, e.id, e.score, e.color)];
      i := i + 1;
    }
  }
}

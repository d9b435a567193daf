// The snake entity and the collision manager (snake.py) as objects whose fields
// change in place. Each method is tied to the value-level rules of SnakeRules
// and CollisionRules through a view of its fields.
module Snakes {
  import opened Globals
  import opened Torus
  import opened SnakeRules
  import opened CollisionRules

  /** The class-level state Snake.pause and Snake.snake_count, shared by all
      snakes of a session. */
  class Session {
    var paused: bool
    var snakeCount: nat

    constructor ()
      ensures !paused && snakeCount == 0
    {
      paused := false;
      snakeCount := 0;
    }
  }

  /** start moved n times by step. */
  function Ahead(start: Pos, step: Pos, n: nat): Pos
  {
    if n == 0 then start else Add(Ahead(start, step, n - 1), step)
  }

  /** The fields of a snake that the collision manager never writes in this
      model. The source's rejoin also re-aims `dir`, which is left out. */
  datatype Untouched = Untouched(dir: Pos, steering: Steering, speedMultiplier: real,
                                 dash: bool, dashLevel: real, score: int,
                                 actionTimer: real, action: AiAction)

  /** A snake (class Snake). A bot (class SnakeAI) is a snake with isBot set;
      its action timer and current action are used only then. The dash bar's
      level and the score, which the source keeps in the snake's info display,
      are fields here. */
  class Snake {
    const id: nat
    const isBot: bool
    const color: Color
    var nodes: seq<Pos>
    var pos: Pos
    var dir: Pos
    var turningDir: int
    var leftIsDown: bool
    var rightIsDown: bool
    var speed: int
    var speedMultiplier: real
    var shieldTimer: real
    var dash: bool
    var dashLevel: real
    var score: nat
    var actionTimer: real
    var currentAction: AiAction

    /** The body is never empty, the position is the head, and the turning
        direction is -1, 0 or 1. */
    ghost predicate Valid()
      reads this
    {
      |nodes| >= 1 && pos == nodes[0] && turningDir in {-1, 0, 1}
    }

    function State(): BodyState
      reads this
    {
      BodyState(id, nodes, pos, shieldTimer, speed)
    }

    function Steer(): Steering
      reads this
    {
      Steering(leftIsDown, rightIsDown, turningDir)
    }

    function Clock(): Timers
      reads this
    {
      Timers(dashLevel, dash, shieldTimer)
    }

    function Rest(): Untouched
      reads this
    {
      Untouched(dir, Steer(), speedMultiplier, dash, dashLevel, score, actionTimer, currentAction)
    }

    /** Snake.__init__ (and SnakeAI.__init__ when bot is set): registers with
        the manager, takes the next id and its colour (the source asserts the
        id has one), starts with one node at `start` and then grows ten nodes
        ahead along `heading` (random in the source). */
    constructor (session: Session, manager: CollisionManager, settings: Settings,
                 start: Pos, heading: Pos, bot: bool, firstAction: AiAction)
      requires session.snakeCount < |settings.colors|
      modifies session, manager
      ensures id == old(session.snakeCount) && session.snakeCount == id + 1
      ensures session.paused == old(session.paused)
      ensures color == settings.colors[id] && isBot == bot
      ensures manager.snakes == old(manager.snakes) + [this]
      ensures manager.cutSkins == old(manager.cutSkins)
      ensures |nodes| == 11
      ensures forall k :: 0 <= k < 11 ==> nodes[k] == Ahead(start, Scale(heading, DIST_BETWEEN_NODES), 10 - k)
      ensures Valid() && dir == heading && speed == CalcSpeed(11)
      ensures Steer() == Steering(false, false, 0)
      ensures speedMultiplier == 1.0 && Clock() == Timers(0.0, false, 0.0) && score == 0
      ensures actionTimer == 0.0 && currentAction == firstAction
    {
      id := session.snakeCount;
      isBot := bot;
      color := settings.colors[session.snakeCount];
      nodes := [start];
      pos := start;
      dir := heading;
      turningDir := 0;
      leftIsDown, rightIsDown := false, false;
      speedMultiplier := 1.0;
      shieldTimer := 0.0;
      speed := CalcSpeed(1);
      dash := false;
      dashLevel := 0.0;
      score := 0;
      actionTimer := 0.0;
      currentAction := firstAction;
      new;
      manager.Add(this);
      session.snakeCount := session.snakeCount + 1;
      GrowAhead(start, 10);
    }

    /** The constructor's ten add_node calls: a one-node body at `start` grows
        `count` nodes ahead along dir. */
    method GrowAhead(start: Pos, count: nat)
      requires Valid() && nodes == [start] && speed == CalcSpeed(1)
      modifies this`nodes, this`pos, this`speed
      ensures Valid() && |nodes| == count + 1
      ensures forall m :: 0 <= m <= count ==> nodes[m] == Ahead(start, Scale(dir, DIST_BETWEEN_NODES), count - m)
      ensures speed == CalcSpeed(count + 1)
    {
      var k := 0;
      while k < count
        invariant 0 <= k <= count
        invariant Valid() && |nodes| == k + 1 && speed == CalcSpeed(k + 1)
        invariant forall m :: 0 <= m <= k ==> nodes[m] == Ahead(start, Scale(dir, DIST_BETWEEN_NODES), k - m)
      {
        ghost var prev := nodes;
        AddNode();
        AheadShift(prev, start, Scale(dir, DIST_BETWEEN_NODES), k);
        k := k + 1;
      }
    }

    /** One add_node step keeps the layout: node m is start moved (count - m) steps. */
    static lemma AheadShift(prev: seq<Pos>, start: Pos, step: Pos, k: nat)
      requires |prev| == k + 1
      requires forall m :: 0 <= m <= k ==> prev[m] == Ahead(start, step, k - m)
      ensures forall m :: 0 <= m <= k + 1 ==> ([Add(prev[0], step)] + prev)[m] == Ahead(start, step, k + 1 - m)
    {
      forall m | 0 <= m <= k + 1 ensures ([Add(prev[0], step)] + prev)[m] == Ahead(start, step, k + 1 - m) {
        if m > 0 {
          assert ([Add(prev[0], step)] + prev)[m] == prev[m - 1];
        }
      }
    }

    /** Snake.score_func applied to the score of this snake's display. */
    method AddScore(points: nat)
      modifies this`score
      ensures score == old(score) + points
    {
      score := score + points;
    }

    /** Snake.add_node: a new head one node spacing ahead along dir; the old
        nodes follow at indices shifted by one. */
    method AddNode()
      requires Valid()
      modifies this`nodes, this`pos, this`speed
      ensures Valid()
      ensures nodes == [Add(old(nodes[0]), Scale(dir, DIST_BETWEEN_NODES))] + old(nodes)
      ensures |nodes| == |old(nodes)| + 1
      ensures forall k :: 0 <= k < |old(nodes)| ==> nodes[k + 1] == old(nodes[k])
      ensures pos == nodes[0] && speed == CalcSpeed(|nodes|)
    {
      nodes := [Add(nodes[0], Scale(dir, DIST_BETWEEN_NODES))] + nodes;
      pos := nodes[0];
      speed := CalcSpeed(|nodes|);
    }

    method OnRightDown()
      requires Valid()
      modifies this`rightIsDown, this`turningDir
      ensures Valid() && Steer() == RightDown(old(Steer()))
    {
      rightIsDown := true;
      turningDir := 1;
    }

    method OnLeftDown()
      requires Valid()
      modifies this`leftIsDown, this`turningDir
      ensures Valid() && Steer() == LeftDown(old(Steer()))
    {
      leftIsDown := true;
      turningDir := -1;
    }

    method OnRightUp()
      requires Valid()
      modifies this`rightIsDown, this`turningDir
      ensures Valid() && Steer() == RightUp(old(Steer()))
    {
      rightIsDown := false;
      if leftIsDown {
        turningDir := -1;
      } else {
        turningDir := 0;
      }
    }

    method OnLeftUp()
      requires Valid()
      modifies this`leftIsDown, this`turningDir
      ensures Valid() && Steer() == LeftUp(old(Steer()))
    {
      leftIsDown := false;
      if rightIsDown {
        turningDir := 1;
      } else {
        turningDir := 0;
      }
    }

    /** Dashing starts only while the dash bar holds something. */
    method OnDashDown()
      modifies this`dash
      ensures dash == (old(dash) || dashLevel > 0.0)
      ensures dash && !old(dash) ==> dashLevel > 0.0
    {
      if dashLevel > 0.0 {
        dash := true;
      }
    }

    method OnDashUp()
      modifies this`dash
      ensures !dash
    {
      dash := false;
    }

    /** Snake.on_collision: deletes nodes[first..last], which must leave at
        least one node (the source asserts it), and scores (last - first)^2. */
    method OnCollision(first: nat, last: nat)
      requires Valid()
      requires first < last <= |nodes| && last - first < |nodes|
      modifies this`nodes, this`pos, this`speed, this`score
      ensures Valid()
      ensures nodes == DeleteSlice(old(nodes), first, last)
      ensures pos == nodes[0] && speed == CalcSpeed(|nodes|)
      ensures score == old(score) + ScoreFunc(last - first)
    {
      nodes := nodes[..first] + nodes[last..];
      pos := nodes[0];
      speed := CalcSpeed(|nodes|);
      AddScore(ScoreFunc(last - first));
    }

    /** Snake.check_collisions: for every i below the length the list had at
        the start, the first j > i whose node lies within NODE_R of node i
        deletes [i, j) and scores; `break` leaves only the inner loop, so later
        i can delete more. The result is SelfScan's. */
    method CheckCollisions()
      requires Valid()
      modifies this`nodes, this`pos, this`speed, this`score
      ensures Valid()
      ensures ScanResult(nodes, score) == SelfScan(old(nodes), 0, |old(nodes)|, old(score))
      ensures |nodes| == |old(nodes)| ==> speed == old(speed)
      ensures |nodes| < |old(nodes)| ==> speed == CalcSpeed(|nodes|)
    {
      var n0 := |nodes|;
      ghost var target := SelfScan(nodes, 0, n0, score);
      var i := 0;
      while i < n0
        invariant 0 <= i <= n0 && Valid() && |nodes| <= n0
        invariant SelfScan(nodes, i, n0, score) == target
        invariant |nodes| == n0 ==> speed == old(speed)
        invariant |nodes| < n0 ==> speed == CalcSpeed(|nodes|)
      {
        ghost var ns, s0 := nodes, score;
        ScanFrom(i);
        ScanAdvance(ns, i, n0, s0, nodes, score);
        i := i + 1;
      }
      ScanDone(nodes, i, n0, score);
    }

    static lemma ScanAdvance(ns: seq<Pos>, i: nat, n0: nat, s0: nat, next: seq<Pos>, s1: nat)
      requires |ns| >= 1 && |next| >= 1 && i < n0 && s0 <= s1
      requires ScanResult(next, s1 - s0) == InnerScan(ns, i, i + 1)
      ensures SelfScan(ns, i, n0, s0) == SelfScan(next, i + 1, n0, s1)
    {
      var step := InnerScan(ns, i, i + 1);
      assert step.nodes == next && s0 + step.gained == s1;
    }

    static lemma ScanDone(ns: seq<Pos>, i: nat, n0: nat, s0: nat)
      requires |ns| >= 1 && i >= n0
      ensures SelfScan(ns, i, n0, s0) == ScanResult(ns, s0)
    {
    }

    /** One iteration of the outer loop of check_collisions: the first j > i
        whose node lies within NODE_R of node i deletes [i, j) and scores, and
        `break` ends the inner loop. */
    method ScanFrom(i: nat)
      requires Valid()
      modifies this`nodes, this`pos, this`speed, this`score
      ensures Valid() && |nodes| <= |old(nodes)| && score >= old(score)
      ensures ScanResult(nodes, score - old(score)) == InnerScan(old(nodes), i, i + 1)
      ensures |nodes| == |old(nodes)| ==> nodes == old(nodes) && speed == old(speed)
      ensures |nodes| < |old(nodes)| ==> speed == CalcSpeed(|nodes|)
    {
      var j := i + 1;
      while j < |nodes|
        invariant i + 1 <= j
        invariant nodes == old(nodes) && score == old(score)
        invariant InnerScan(nodes, i, j) == InnerScan(nodes, i, i + 1)
      {
        if WithinRadius(nodes[i], nodes[j], NODE_R) {
          ghost var hit := InnerScan(nodes, i, j);
          assert hit == ScanResult(DeleteSlice(nodes, i, j), ScoreFunc(j - i));
          OnCollision(i, j);
          assert ScanResult(nodes, score - old(score)) == hit;
          return;
        }
        assert InnerScan(nodes, i, j) == InnerScan(nodes, i, j + 1);
        j := j + 1;
      }
      assert InnerScan(nodes, i, j) == ScanResult(nodes, 0);
    }

    /** The timer part of Snake.update: nothing while the session is paused;
        otherwise the dash bar refills, drains while dashing and switches dashing
        off when empty, and the shield counts down. */
    method UpdateTimers(dt: real, paused: bool)
      modifies this`dashLevel, this`dash, this`shieldTimer
      ensures Clock() == TimersStep(old(Clock()), dt, paused)
    {
      if paused {
        return;
      }
      if dashLevel < MAX_DASH_LEVEL_SECS {
        dashLevel := dashLevel + dt * DASH_INC_PER_SEC;
      }
      if dashLevel <= 0.0 {
        dashLevel := 0.0;
        dash := false;
      }
      if dash {
        dashLevel := dashLevel - dt;
      }
      if shieldTimer > 0.0 {
        shieldTimer := shieldTimer - dt;
      } else {
        shieldTimer := 0.0;
      }
    }

    /** The part of SnakeAI.update after the snake's own update: the action
        timer runs even while paused, a new action (`roll`, random in the
        source) is taken once it passes 3 seconds, and the current action
        always sets the turning direction. */
    method UpdateBot(dt: real, roll: AiAction)
      requires Valid() && isBot
      modifies this`actionTimer, this`currentAction, this`turningDir
      ensures Valid()
      ensures AiState(actionTimer, currentAction) == AiStep(old(AiState(actionTimer, currentAction)), dt, roll)
      ensures turningDir == currentAction.Value()
    {
      actionTimer := actionTimer + dt;
      if actionTimer > ACTION_DUR_SECS {
        actionTimer := 0.0;
        currentAction := roll;
      }
      turningDir := currentAction.Value();
    }
  }

  /** SnakeCollisionManager: the registry of snakes in registration order and
      the cut-skin table. */
  class CollisionManager {
    var snakes: seq<Snake>
    var cutSkins: Skins

    /** Each snake is registered once, under an id of its own (the skin table
        is keyed by id), and is valid; every stored skin has at least one node. */
    ghost predicate Valid()
      reads this, snakes
    {
      && (forall i, j :: 0 <= i < j < |snakes| ==> snakes[i] != snakes[j])
      && (forall i, j :: 0 <= i < j < |snakes| ==> snakes[i].id != snakes[j].id)
      && (forall i :: 0 <= i < |snakes| ==> snakes[i].Valid())
      && SkinsOk(cutSkins)
    }

    ghost function Bodies(): (bs: seq<BodyState>)
      reads this, snakes
      ensures |bs| == |snakes|
      ensures forall i :: 0 <= i < |snakes| ==> bs[i] == snakes[i].State()
    {
      seq(|snakes|, i requires 0 <= i < |snakes| reads this, snakes => snakes[i].State())
    }

    /** The manager's state as a value. */
    ghost function World(): Arena
      reads this, snakes
    {
      Arena(Bodies(), cutSkins)
    }

    constructor ()
      ensures snakes == [] && cutSkins == map[] && Valid()
    {
      snakes := [];
      cutSkins := map[];
    }

    /** SnakeCollisionManager.reset: empties the skin table and the registry. */
    method Reset()
      modifies this
      ensures snakes == [] && cutSkins == map[] && Valid()
    {
      cutSkins := map[];
      snakes := [];
    }

    method Add(snake: Snake)
      modifies this`snakes
      ensures snakes == old(snakes) + [snake]
    {
      snakes := snakes + [snake];
    }

    /** SnakeCollisionManager.on_collision: cuts `attacked` at idx > 0 (which
        the source asserts). The attacker plays no part. */
    method OnCollision(attacker: Snake, attacked: Snake, idx: nat)
      requires attacked.Valid() && 0 < idx < |attacked.nodes|
      modifies this`cutSkins, attacked`nodes, attacked`speed
      ensures attacked.Valid()
      ensures Outcome(attacked.State(), cutSkins) == Cut(old(attacked.State()), old(cutSkins), idx)
    {
      cutSkins := cutSkins[attacked.id := NodeData(SKIN_DISAPPEAR_AFTER_SECS, attacked.nodes[idx..])];
      attacked.nodes := attacked.nodes[..idx];
      attacked.speed := CalcSpeed(|attacked.nodes|);
    }

    /** SnakeCollisionManager.check_attack, which the source calls only on a
        snake with more than one node (and asserts it). */
    method CheckAttack(attacker: Snake, attacked: Snake)
      requires attacker.Valid() && attacked.Valid() && |attacked.nodes| > 1
      modifies this`cutSkins, attacked`nodes, attacked`speed
      ensures attacked.Valid()
      ensures Outcome(attacked.State(), cutSkins)
                == Attack(old(attacker.nodes[0]), old(attacked.State()), old(cutSkins))
    {
      ghost var head := attacker.nodes[0];
      var i := 1;
      while i < |attacked.nodes|
        invariant 1 <= i <= |attacked.nodes|
        invariant attacked.nodes == old(attacked.nodes) && attacker.nodes[0] == head
        invariant FirstWithin(head, attacked.nodes, NODE_R, i) == FirstWithin(head, attacked.nodes, NODE_R, 1)
      {
        if WithinRadius(attacker.nodes[0], attacked.nodes[i], NODE_R) {
          OnCollision(attacker, attacked, i);
          return;
        }
        i := i + 1;
      }
    }

    /** SnakeCollisionManager.rejoin: the snake's stored skin is put in front
        of its nodes and leaves the table. The new heading the source computes
        from the first two nodes is not part of this model. */
    method Rejoin(snake: Snake)
      requires snake.Valid() && snake.id in cutSkins
      modifies this`cutSkins, snake`nodes, snake`pos, snake`speed
      ensures snake.Valid()
      ensures Outcome(snake.State(), cutSkins) == CollisionRules.Rejoin(old(snake.State()), old(cutSkins))
    {
      snake.nodes := cutSkins[snake.id].nodes + snake.nodes;
      cutSkins := cutSkins - {snake.id};
      snake.pos := snake.nodes[0];
      snake.speed := CalcSpeed(|snake.nodes|);
    }

    /** SnakeCollisionManager.check_collisions: the pass CheckAll describes.
        Every snake keeps its id, shield timer and all fields the manager does
        not write. */
    method CheckCollisions()
      requires Valid()
      modifies this`cutSkins, set s | s in snakes
      ensures Valid() && snakes == old(snakes)
      ensures World() == CheckAll(old(World()))
      ensures forall s :: s in snakes ==> s.Rest() == old(s.Rest())
    {
      ValidWorld();
      if |snakes| < 2 {
        return;
      }
      ghost var w0 := World();
      var c := 0;
      while c < |snakes|
        invariant 0 <= c <= |snakes| && Valid() && snakes == old(snakes)
        invariant ArenaOk(World()) && OuterPass(World(), c) == CheckAll(w0)
        invariant forall s :: s in snakes ==> s.Rest() == old(s.Rest())
      {
        OuterStep(c);
        c := c + 1;
      }
    }

    /** One iteration of the outer loop of check_collisions. */
    method OuterStep(c: nat)
      requires Valid() && c < |snakes|
      modifies this`cutSkins, set s | s in snakes
      ensures Valid() && snakes == old(snakes) && ArenaOk(old(World()))
      ensures World() == RejoinCheck(InnerPass(old(World()), c, 1), c)
      ensures forall s :: s in snakes ==> s.Rest() == old(s.Rest())
    {
      AttackAll(c);
      CheckRejoin(c, snakes[c]);
    }

    /** The inner loop of check_collisions for cur = snakes[c]: `for other in
        snakes[1:]`, cur attacking other and then other attacking cur. */
    method AttackAll(c: nat)
      requires Valid() && c < |snakes|
      modifies this`cutSkins, set s | s in snakes
      ensures Valid() && snakes == old(snakes) && ArenaOk(old(World()))
      ensures World() == InnerPass(old(World()), c, 1)
      ensures forall s :: s in snakes ==> s.Rest() == old(s.Rest())
    {
      ValidWorld();
      var o := 1;
      while o < |snakes|
        invariant 1 <= o <= |snakes| && Valid() && snakes == old(snakes)
        invariant ArenaOk(World()) && InnerPass(World(), c, o) == InnerPass(old(World()), c, 1)
        invariant forall s :: s in snakes ==> s.Rest() == old(s.Rest())
      {
        ghost var w := World();
        CheckPair(c, o);
        assert InnerPass(w, c, o) == InnerPass(World(), c, o + 1);
        o := o + 1;
      }
    }

    /** One pass of the inner loop: cur attacks other, then other attacks cur. */
    method CheckPair(c: nat, o: nat)
      requires Valid() && c < |snakes| && o < |snakes|
      modifies this`cutSkins, set s | s in snakes
      ensures Valid() && ArenaOk(old(World()))
      ensures World() == PairStep(old(World()), c, o)
      ensures forall s :: s in snakes ==> s.Rest() == old(s.Rest())
    {
      GuardedCheck(c, o, snakes[o]);
      GuardedCheck(o, c, snakes[c]);
    }

    /** One guarded call of check_collisions: snakes[a] attacks snakes[b] only
        if b has more than one node and no shield. */
    method GuardedCheck(a: nat, b: nat, attacked: Snake)
      requires Valid() && a < |snakes| && b < |snakes| && attacked == snakes[b]
      modifies this`cutSkins, attacked`nodes, attacked`speed
      ensures Valid() && ArenaOk(old(World()))
      ensures World() == GuardedAttack(old(World()), a, b)
      ensures forall s :: s in snakes ==> s.Rest() == old(s.Rest())
    {
      ValidWorld();
      ghost var w := World();
      if |attacked.nodes| > 1 && attacked.shieldTimer <= 0.0 {
        CheckAttack(snakes[a], attacked);
        ghost var r := GuardedAttack(w, a, b);
        assert Bodies() == r.bodies;
      }
    }

    /** The rejoin test that ends each outer iteration: the snake's head is
        back within REJOIN_R of the last node of its stored skin. */
    method CheckRejoin(c: nat, cur: Snake)
      requires Valid() && c < |snakes| && cur == snakes[c]
      modifies this`cutSkins, cur`nodes, cur`pos, cur`speed
      ensures Valid() && ArenaOk(old(World()))
      ensures World() == RejoinCheck(old(World()), c)
      ensures forall s :: s in snakes ==> s.Rest() == old(s.Rest())
    {
      ValidWorld();
      ghost var w := World();
      if cur.id in cutSkins && WithinRadius(cur.pos, Last(cutSkins[cur.id].nodes), REJOIN_R) {
        Rejoin(cur);
        ghost var r := RejoinCheck(w, c);
        assert Bodies() == r.bodies;
      }
    }

    /** SnakeCollisionManager.update: every entry's timer goes down by dt, and
        the entries whose timer was already at or below 0 when the tick began
        are removed afterwards. Iteration order over the table plays no part. */
    method Update(dt: real)
      modifies this`cutSkins
      ensures cutSkins == Decay(old(cutSkins), dt)
    {
      var pending := cutSkins.Keys;
      var toRemove: seq<nat> := [];
      while pending != {}
        invariant pending <= cutSkins.Keys && cutSkins.Keys == old(cutSkins).Keys
        invariant forall id :: id in cutSkins ==>
                    cutSkins[id] == if id in pending then old(cutSkins)[id]
                                    else old(cutSkins)[id].(timer := old(cutSkins)[id].timer - dt)
        invariant forall id :: id in toRemove <==>
                    id in old(cutSkins) && id !in pending && old(cutSkins)[id].timer <= 0.0
        decreases pending
      {
        var id :| id in pending;
        var entry := cutSkins[id];
        if entry.timer <= 0.0 {
          toRemove := toRemove + [id];
        }
        cutSkins := cutSkins[id := entry.(timer := entry.timer - dt)];
        pending := pending - {id};
      }
      ghost var ticked := cutSkins;
      var j := 0;
      while j < |toRemove|
        invariant 0 <= j <= |toRemove|
        invariant forall id :: id in cutSkins <==> id in ticked && id !in toRemove[..j]
        invariant forall id :: id in cutSkins ==> cutSkins[id] == ticked[id]
      {
        cutSkins := cutSkins - {toRemove[j]};
        j := j + 1;
      }
      assert toRemove[..j] == toRemove;
      ghost var d := Decay(old(cutSkins), dt);
      assert forall id :: id in cutSkins <==> id in d;
      assert forall id :: id in cutSkins ==> cutSkins[id] == d[id];
    }

    lemma ValidWorld()
      requires Valid()
      ensures ArenaOk(World())
    {
    }
  }
}

// The value-level rules of a single snake (snake.py, class Snake and class
// SnakeAI): derived speed, score for a loop, steering from the turn keys, the
// dash and shield timers, the bot's action timer, and the self-collision scan.
module SnakeRules {
  import opened Torus

  const NODE_R: int := 5
  const DIST_BETWEEN_NODES: int := NODE_R * 2
  const SPEED_MULTIPLIER_FOR_NODES: int := 7
  const MIN_SPEED: int := 100
  const MAX_DASH_LEVEL_SECS: real := 2.0
  const DASH_INC_PER_SEC: real := 0.2
  const ACTION_DUR_SECS: real := 3.0

  /** Speed derived from the node count: 7 per node, never below 100. */
  function CalcSpeed(nodeCount: nat): (s: int)
    ensures s >= MIN_SPEED && s >= SPEED_MULTIPLIER_FOR_NODES * nodeCount
    ensures s == MIN_SPEED || s == SPEED_MULTIPLIER_FOR_NODES * nodeCount
  {
    if SPEED_MULTIPLIER_FOR_NODES * nodeCount > MIN_SPEED then SPEED_MULTIPLIER_FOR_NODES * nodeCount
    else MIN_SPEED
  }

  /** Points for closing a loop of the given number of nodes: the square of
      the count, so every removed node is worth at least one point and larger
      loops are worth more per node. */
  function ScoreFunc(loopCount: nat): (points: nat)
    ensures points >= loopCount
    ensures loopCount >= 2 ==> points > loopCount
  {
    loopCount * loopCount
  }

  // ---------------------------------------------------------------------------
  // Steering

  /** The two turn keys and the turning direction they leave behind. */
  datatype Steering = Steering(leftDown: bool, rightDown: bool, turning: int)

  /** The turning direction is -1, 0 or 1 and points toward the key that is
      held; with no key held it is 0, with both held it is one of the two. */
  predicate KeysAgree(s: Steering)
  {
    && s.turning in {-1, 0, 1}
    && (s.leftDown && !s.rightDown ==> s.turning == -1)
    && (!s.leftDown && s.rightDown ==> s.turning == 1)
    && (!s.leftDown && !s.rightDown ==> s.turning == 0)
    && (s.leftDown && s.rightDown ==> s.turning != 0)
  }

  function RightDown(s: Steering): (r: Steering)
    ensures r.rightDown && r.leftDown == s.leftDown
    ensures r.turning == 1 && KeysAgree(r)
  {
    Steering(s.leftDown, true, 1)
  }

  function LeftDown(s: Steering): (r: Steering)
    ensures r.leftDown && r.rightDown == s.rightDown
    ensures r.turning == -1 && KeysAgree(r)
  {
    Steering(true, s.rightDown, -1)
  }

  /** Releasing the right key turns toward the left key if it is still held,
      and straightens otherwise. */
  function RightUp(s: Steering): (r: Steering)
    ensures !r.rightDown && r.leftDown == s.leftDown
    ensures KeysAgree(r)
  {
    Steering(s.leftDown, false, if s.leftDown then -1 else 0)
  }

  function LeftUp(s: Steering): (r: Steering)
    ensures !r.leftDown && r.rightDown == s.rightDown
    ensures KeysAgree(r)
  {
    Steering(false, s.rightDown, if s.rightDown then 1 else 0)
  }

  // ---------------------------------------------------------------------------
  // Dash and shield timers (the timer part of Snake.update)

  /** The dash bar's level, whether the snake is dashing, and the remaining
      shield time. */
  datatype Timers = Timers(dashLevel: real, dash: bool, shieldTimer: real)

  /** The dash bar refills at 0.2 per second while below its 2-second cap. */
  function Refill(level: real, dt: real): real
  {
    if level < MAX_DASH_LEVEL_SECS then level + dt * DASH_INC_PER_SEC else level
  }

  /** One tick of the timers; a paused game leaves them alone. */
  function TimersStep(t: Timers, dt: real, paused: bool): (r: Timers)
    ensures paused ==> r == t
    ensures r.dash ==> t.dash
    ensures !paused && Refill(t.dashLevel, dt) <= 0.0 ==> !r.dash && r.dashLevel == 0.0
    ensures !paused && r.dash ==> r.dashLevel == Refill(t.dashLevel, dt) - dt
    ensures !paused && !r.dash && Refill(t.dashLevel, dt) > 0.0 ==> r.dashLevel == Refill(t.dashLevel, dt)
    ensures !paused && t.shieldTimer <= 0.0 ==> r.shieldTimer == 0.0
    ensures !paused && t.shieldTimer > 0.0 ==> r.shieldTimer == t.shieldTimer - dt
  {
    if paused then t
    else
      var level := Refill(t.dashLevel, dt);
      var dash := if level <= 0.0 then false else t.dash;
      var level' := if level <= 0.0 then 0.0 else level;
      var level'' := if dash then level' - dt else level';
      var shield := if t.shieldTimer > 0.0 then t.shieldTimer - dt else 0.0;
      Timers(level'', dash, shield)
  }

  /** Successive unpaused ticks of the timers. */
  function TimersRun(t: Timers, dts: seq<real>): Timers
    decreases |dts|
  {
    if dts == [] then t else TimersRun(TimersStep(t, dts[0], false), dts[1..])
  }

  /** With frame times between 0 and d, the dash bar never rises above its cap
      by more than one tick's refill and never drops below -d (a dash can
      overdraw the bar by one tick before it is reset to 0), and the shield
      timer never grows and never drops below -d. */
  lemma {:induction false} TimersStayBounded(t: Timers, dts: seq<real>, d: real)
    requires forall k :: 0 <= k < |dts| ==> 0.0 <= dts[k] <= d
    requires -d <= t.dashLevel <= MAX_DASH_LEVEL_SECS + d * DASH_INC_PER_SEC
    requires -d <= t.shieldTimer
    ensures var r := TimersRun(t, dts);
            && -d <= r.dashLevel <= MAX_DASH_LEVEL_SECS + d * DASH_INC_PER_SEC
            && -d <= r.shieldTimer
            && r.shieldTimer <= (if t.shieldTimer > 0.0 then t.shieldTimer else 0.0)
    decreases |dts|
  {
    if dts != [] {
      var t1 := TimersStep(t, dts[0], false);
      assert dts[0] * DASH_INC_PER_SEC <= d * DASH_INC_PER_SEC;
      assert -d <= t1.dashLevel <= MAX_DASH_LEVEL_SECS + d * DASH_INC_PER_SEC;
      assert forall k :: 0 <= k < |dts[1..]| ==> dts[1..][k] == dts[k + 1];
      TimersStayBounded(t1, dts[1..], d);
    }
  }

  // ---------------------------------------------------------------------------
  // The bot's steering policy (SnakeAI.update)

  /** The three steering choices of a bot, drawn by randint(-1, 1). */
  datatype AiAction = TurnLeft | Straight | TurnRight
  {
    function Value(): (v: int)
      ensures v in {-1, 0, 1}
      ensures (v == -1) == TurnLeft? && (v == 1) == TurnRight?
    {
      match this
      case TurnLeft => -1
      case Straight => 0
      case TurnRight => 1
    }
  }

  datatype AiState = AiState(actionTimer: real, action: AiAction)

  /** The action timer accumulates dt; once it exceeds 3 seconds it restarts
      at 0 and `roll` becomes the current action. */
  function AiStep(s: AiState, dt: real, roll: AiAction): (r: AiState)
    ensures s.actionTimer + dt > ACTION_DUR_SECS ==> r == AiState(0.0, roll)
    ensures s.actionTimer + dt <= ACTION_DUR_SECS ==> r == AiState(s.actionTimer + dt, s.action)
    ensures 0.0 <= s.actionTimer && 0.0 <= dt ==> 0.0 <= r.actionTimer <= ACTION_DUR_SECS
  {
    if s.actionTimer + dt > ACTION_DUR_SECS then AiState(0.0, roll)
    else AiState(s.actionTimer + dt, s.action)
  }

  // ---------------------------------------------------------------------------
  // Self-collision (Snake.check_collisions and Snake.on_collision)

  /** The node list after a scan and the points the scan earned. */
  datatype ScanResult = ScanResult(nodes: seq<Pos>, gained: nat)

  /** nodes with the slice [first, last) deleted. */
  function DeleteSlice(nodes: seq<Pos>, first: nat, last: nat): (r: seq<Pos>)
    requires first <= last <= |nodes|
    ensures |r| == |nodes| - (last - first)
    ensures r[..first] == nodes[..first] && r[first..] == nodes[last..]
    ensures multiset(r) <= multiset(nodes)
  {
    assert nodes == nodes[..first] + nodes[first..last] + nodes[last..];
    nodes[..first] + nodes[last..]
  }

  /** The first index at or after `from` whose point lies within r of head,
      or |ps| when there is none: the `for ...: if distance < r: ...; break`
      pattern. */
  function FirstWithin(head: Pos, ps: seq<Pos>, r: int, from: nat): (k: nat)
    requires from <= |ps|
    ensures from <= k <= |ps|
    ensures forall j :: from <= j < k ==> !WithinRadius(head, ps[j], r)
    ensures k < |ps| ==> WithinRadius(head, ps[k], r)
    decreases |ps| - from
  {
    if from == |ps| then from
    else if WithinRadius(head, ps[from], r) then from
    else FirstWithin(head, ps, r, from + 1)
  }

  /** The inner loop for a fixed i: the first j >= `from` whose node lies within
      NODE_R of node i deletes [i, j) and scores (j - i)^2; no such j changes
      nothing. The scan never lengthens or empties the list and scores at
      least one point per deleted node. */
  function InnerScan(nodes: seq<Pos>, i: nat, from: nat): (r: ScanResult)
    requires i < from
    ensures |r.nodes| <= |nodes|
    ensures r.gained >= |nodes| - |r.nodes|
    ensures |r.nodes| == |nodes| ==> r == ScanResult(nodes, 0)
    ensures |nodes| >= 1 ==> |r.nodes| >= 1
    ensures from < |nodes| && FirstWithin(nodes[i], nodes, NODE_R, from) < |nodes| ==>
              var k := FirstWithin(nodes[i], nodes, NODE_R, from);
              r == ScanResult(DeleteSlice(nodes, i, k), ScoreFunc(k - i))
    decreases |nodes| - from
  {
    if from >= |nodes| then ScanResult(nodes, 0)
    else if WithinRadius(nodes[i], nodes[from], NODE_R) then
      assert FirstWithin(nodes[i], nodes, NODE_R, from) == from;
      ScanResult(DeleteSlice(nodes, i, from), ScoreFunc(from - i))
    else
      assert FirstWithin(nodes[i], nodes, NODE_R, from) == FirstWithin(nodes[i], nodes, NODE_R, from + 1);
      InnerScan(nodes, i, from + 1)
  }

  /** The inner scan changes nothing exactly when no node from `from` on lies
      within NODE_R of node i. */
  lemma {:induction false} InnerScanMiss(nodes: seq<Pos>, i: nat, from: nat)
    requires i < from
    ensures InnerScan(nodes, i, from) == ScanResult(nodes, 0) <==>
              forall k :: from <= k < |nodes| ==> !WithinRadius(nodes[i], nodes[k], NODE_R)
    decreases |nodes| - from
  {
    if from < |nodes| && !WithinRadius(nodes[i], nodes[from], NODE_R) {
      InnerScanMiss(nodes, i, from + 1);
    }
  }

  /** The outer loop from index i up to the length n0 the list had when the
      scan began (Python evaluates range(len(nodes)) once), starting from the
      score `score`. Every i runs an inner scan: a hit deletes a slice, adds to
      the score, and the outer loop goes on, so one scan can delete several
      slices. */
  function SelfScan(nodes: seq<Pos>, i: nat, n0: nat, score: nat): (r: ScanResult)
    requires |nodes| >= 1
    ensures 1 <= |r.nodes| <= |nodes|
    ensures r.gained >= score + (|nodes| - |r.nodes|)
    ensures |r.nodes| == |nodes| ==> r == ScanResult(nodes, score)
    decreases n0 - i
  {
    if i >= n0 then ScanResult(nodes, score)
    else
      var step := InnerScan(nodes, i, i + 1);
      SelfScan(step.nodes, i + 1, n0, score + step.gained)
  }

  /** The inner scan invents no node: what is left is a sub-multiset. */
  lemma {:induction false} InnerScanKeepsNodes(nodes: seq<Pos>, i: nat, from: nat)
    requires i < from
    ensures multiset(InnerScan(nodes, i, from).nodes) <= multiset(nodes)
    decreases |nodes| - from
  {
    if from < |nodes| && !WithinRadius(nodes[i], nodes[from], NODE_R) {
      InnerScanKeepsNodes(nodes, i, from + 1);
    }
  }

  /** The whole self-collision scan invents no node. */
  lemma {:induction false} SelfScanKeepsNodes(nodes: seq<Pos>, i: nat, n0: nat, score: nat)
    requires |nodes| >= 1
    ensures multiset(SelfScan(nodes, i, n0, score).nodes) <= multiset(nodes)
    decreases n0 - i
  {
    if i < n0 {
      var step := InnerScan(nodes, i, i + 1);
      InnerScanKeepsNodes(nodes, i, i + 1);
      SelfScanKeepsNodes(step.nodes, i + 1, n0, score + step.gained);
    }
  }

  /** A snake whose nodes 2 and 5 coincide, with no other pair closer than
      NODE_R, loses nodes[2..5] and scores (5 - 2)^2 = 9. */
  lemma SelfCollisionExample()
    ensures SelfScan(ExampleLoop(), 0, 6, 0) == ScanResult(ExampleLoop()[..2] + ExampleLoop()[5..], 9)
  {
    var s := ExampleLoop();
    var t := s[..2] + s[5..];
    ExampleFirstRows();
    ExampleThirdRow();
    ExampleTail(t);
    assert SelfScan(s, 2, 6, 0) == ScanResult(t, 9);
    assert SelfScan(s, 1, 6, 0) == SelfScan(s, 2, 6, 0);
    assert SelfScan(s, 0, 6, 0) == SelfScan(s, 1, 6, 0);
  }

  lemma ExampleTail(t: seq<Pos>)
    requires |t| == 3
    ensures SelfScan(t, 3, 6, 9) == ScanResult(t, 9)
  {
    assert SelfScan(t, 5, 6, 9) == SelfScan(t, 6, 6, 9);
    assert SelfScan(t, 4, 6, 9) == SelfScan(t, 5, 6, 9);
    assert SelfScan(t, 3, 6, 9) == SelfScan(t, 4, 6, 9);
  }

  function ExampleLoop(): seq<Pos>
  {
    [Pos(0, 0), Pos(10, 0), Pos(20, 0), Pos(30, 0), Pos(40, 0), Pos(20, 0)]
  }

  lemma ExampleFirstRows()
    ensures InnerScan(ExampleLoop(), 0, 1) == ScanResult(ExampleLoop(), 0)
    ensures InnerScan(ExampleLoop(), 1, 2) == ScanResult(ExampleLoop(), 0)
  {
    var s := ExampleLoop();
    assert forall k :: 1 <= k < 6 ==> !WithinRadius(s[0], s[k], NODE_R);
    assert forall k :: 2 <= k < 6 ==> !WithinRadius(s[1], s[k], NODE_R);
    InnerScanMiss(s, 0, 1);
    InnerScanMiss(s, 1, 2);
  }

  lemma ExampleThirdRow()
    ensures InnerScan(ExampleLoop(), 2, 3) == ScanResult(ExampleLoop()[..2] + ExampleLoop()[5..], 9)
  {
    var s := ExampleLoop();
    assert !WithinRadius(s[2], s[3], NODE_R) && !WithinRadius(s[2], s[4], NODE_R);
    assert WithinRadius(s[2], s[5], NODE_R);
    assert InnerScan(s, 2, 3) == InnerScan(s, 2, 4);
    assert InnerScan(s, 2, 4) == InnerScan(s, 2, 5);
  }

  /** The break leaves only the inner loop: on this chain node 0 meets node
      2, and then, in the shortened chain, node 1 meets node 3, so one scan
      makes two cuts worth 2^2 + 2^2 = 8 points. */
  lemma TwoCutsExample()
    ensures SelfScan(TwoLoops(), 0, 6, 0) == ScanResult([Pos(0, 0), Pos(50, 0)], 8)
  {
    var s := TwoLoops();
    var m := [Pos(0, 0), Pos(50, 0), Pos(60, 0), Pos(50, 0)];
    var n := [Pos(0, 0), Pos(50, 0)];
    TwoCutsFirst();
    TwoCutsSecond();
    TwoCutsTail(n);
    assert SelfScan(m, 1, 6, 4) == SelfScan(n, 2, 6, 8);
    assert SelfScan(s, 0, 6, 0) == SelfScan(m, 1, 6, 4);
  }

  lemma TwoCutsFirst()
    ensures InnerScan(TwoLoops(), 0, 1) == ScanResult([Pos(0, 0), Pos(50, 0), Pos(60, 0), Pos(50, 0)], 4)
  {
    var s := TwoLoops();
    assert !WithinRadius(s[0], s[1], NODE_R);
    assert InnerScan(s, 0, 1) == InnerScan(s, 0, 2);
    assert WithinRadius(s[0], s[2], NODE_R);
    assert InnerScan(s, 0, 2) == ScanResult(DeleteSlice(s, 0, 2), ScoreFunc(2));
    assert DeleteSlice(s, 0, 2) == s[2..];
  }

  lemma TwoCutsSecond()
    ensures InnerScan([Pos(0, 0), Pos(50, 0), Pos(60, 0), Pos(50, 0)], 1, 2) == ScanResult([Pos(0, 0), Pos(50, 0)], 4)
  {
    var m := [Pos(0, 0), Pos(50, 0), Pos(60, 0), Pos(50, 0)];
    assert !WithinRadius(m[1], m[2], NODE_R);
    assert InnerScan(m, 1, 2) == InnerScan(m, 1, 3);
    assert WithinRadius(m[1], m[3], NODE_R);
    assert InnerScan(m, 1, 3) == ScanResult(DeleteSlice(m, 1, 3), ScoreFunc(2));
    assert DeleteSlice(m, 1, 3) == m[..1] + m[3..];
    assert m[..1] == [Pos(0, 0)] && m[3..] == [Pos(50, 0)];
  }

  lemma TwoCutsTail(t: seq<Pos>)
    requires |t| == 2
    ensures SelfScan(t, 2, 6, 8) == ScanResult(t, 8)
  {
    assert SelfScan(t, 5, 6, 8) == SelfScan(t, 6, 6, 8);
    assert SelfScan(t, 4, 6, 8) == SelfScan(t, 5, 6, 8);
    assert SelfScan(t, 3, 6, 8) == SelfScan(t, 4, 6, 8);
    assert SelfScan(t, 2, 6, 8) == SelfScan(t, 3, 6, 8);
  }

  function TwoLoops(): seq<Pos>
  {
    [Pos(0, 0), Pos(10, 0), Pos(0, 0), Pos(50, 0), Pos(60, 0), Pos(50, 0)]
  }
}

// Fruits, their effects on a snake, and the spawner (fruit.py), together with
// the two Snake methods that reach into them (check_fruit_collision and
// on_hit_fruit in snake.py), which live here because the fruit module refers
// to snakes.
module Fruits {
  import opened Torus
  import opened SnakeRules
  import opened CollisionRules
  import opened Snakes

  const FRUIT_R: int := 10
  const INTERVAL_SECS: real := 2.0
  const SPEED_MULTIPLIER: real := 1.5
  const SPEED_DUR_SECS: real := 3.0
  const SHIELD_DUR_SECS: real := 3.0

  /** How close a snake's head must come to a fruit to eat it. */
  const REACH: int := FRUIT_R + NODE_R

  /** Fruit, SpeedFruit and ShieldFruit. */
  datatype FruitKind = Plain | Speed | Shield

  datatype Option<T> = None | Some(value: T)

  /** The kind spawn creates for the roll randint(0, 2); any other roll
      creates nothing. */
  function KindOf(roll: int): (k: Option<FruitKind>)
    ensures k.Some? <==> 0 <= roll <= 2
    ensures k == Some(Plain) <==> roll == 0
    ensures k == Some(Speed) <==> roll == 1
    ensures k == Some(Shield) <==> roll == 2
  {
    if roll == 0 then Some(Plain)
    else if roll == 1 then Some(Speed)
    else if roll == 2 then Some(Shield)
    else None
  }

  // ---------------------------------------------------------------------------
  // The speed boost as a value

  /** A snake's speed multiplier together with a speed fruit's timer and
      whether the fruit is still live (attached and not yet destroyed). */
  datatype Boost = Boost(multiplier: real, timer: real, active: bool)

  /** SpeedFruit.update once a snake is recorded: when its timer has gone
      below 0 it divides the multiplier back and is destroyed; the timer counts
      down in the same call either way. A destroyed fruit is not updated. */
  function BoostTick(b: Boost, dt: real): (r: Boost)
    ensures !b.active ==> r == b
    ensures b.active && b.timer < 0.0 ==> r == Boost(b.multiplier / SPEED_MULTIPLIER, b.timer - dt, false)
    ensures b.active && b.timer >= 0.0 ==> r == Boost(b.multiplier, b.timer - dt, true)
    ensures r.active ==> b.active && r.multiplier == b.multiplier
  {
    if !b.active then b
    else if b.timer < 0.0 then Boost(b.multiplier / SPEED_MULTIPLIER, b.timer - dt, false)
    else Boost(b.multiplier, b.timer - dt, true)
  }

  function BoostRun(b: Boost, dts: seq<real>): Boost
    decreases |dts|
  {
    if dts == [] then b else BoostRun(BoostTick(b, dts[0]), dts[1..])
  }

  /** After its fruit is gone, a boost never changes again. */
  lemma {:induction false} SpentBoostStays(b: Boost, dts: seq<real>)
    requires !b.active
    ensures BoostRun(b, dts) == b
    decreases |dts|
  {
    if dts != [] {
      SpentBoostStays(BoostTick(b, dts[0]), dts[1..]);
    }
  }

  /** A speed fruit eaten when the snake's multiplier was m: the multiplier is
      m * 1.5 while the fruit lives and exactly m once it is gone, so with exact
      arithmetic the boost is undone once and only once. The fruit lives as
      long as its timer, less the time elapsed before each tick, was still
      >= 0 at every tick. */
  lemma {:induction false} BoostUndone(m: real, t: real, dts: seq<real>)
    ensures var r := BoostRun(Boost(m * SPEED_MULTIPLIER, t, true), dts);
            && (r.active <==> forall k :: 0 <= k < |dts| ==> t - Sum(dts[..k]) >= 0.0)
            && r.multiplier == (if r.active then m * SPEED_MULTIPLIER else m)
            && (r.active ==> r.timer == t - Sum(dts))
    decreases |dts|
  {
    if dts != [] {
      assert Sum(dts[..0]) == 0.0;
      var b1 := BoostTick(Boost(m * SPEED_MULTIPLIER, t, true), dts[0]);
      assert BoostRun(Boost(m * SPEED_MULTIPLIER, t, true), dts) == BoostRun(b1, dts[1..]);
      if t < 0.0 {
        SpentBoostStays(b1, dts[1..]);
      } else {
        var t1 := t - dts[0];
        BoostUndone(m, t1, dts[1..]);
        forall k | 0 < k < |dts| ensures Sum(dts[..k]) == dts[0] + Sum(dts[1..][..k - 1]) {
          SumPrefix(dts, k);
        }
        var all := forall k :: 0 <= k < |dts| ==> t - Sum(dts[..k]) >= 0.0;
        var rest := forall k :: 0 <= k < |dts| - 1 ==> t1 - Sum(dts[1..][..k]) >= 0.0;
        if rest {
          forall k | 0 <= k < |dts| ensures t - Sum(dts[..k]) >= 0.0 {
            if k > 0 { assert t1 - Sum(dts[1..][..k - 1]) >= 0.0; }
          }
        }
        if all {
          forall k | 0 <= k < |dts| - 1 ensures t1 - Sum(dts[1..][..k]) >= 0.0 {
            assert t - Sum(dts[..k + 1]) >= 0.0;
          }
        }
        assert Sum(dts) == dts[0] + Sum(dts[1..]);
      }
    }
  }

  // ---------------------------------------------------------------------------
  // The spawn timer as a value

  datatype SpawnRun = SpawnRun(timer: real, spawned: nat)

  /** FruitsSpawner.update's timer: once it has reached the interval it
      restarts at 0 and one fruit is spawned, and dt is added in either case. */
  function SpawnStep(timer: real, dt: real): (r: SpawnRun)
    ensures r.spawned <= 1
    ensures r.spawned == 1 <==> timer >= INTERVAL_SECS
    ensures r.timer == (if timer >= INTERVAL_SECS then 0.0 else timer) + dt
  {
    if timer >= INTERVAL_SECS then SpawnRun(dt, 1) else SpawnRun(timer + dt, 0)
  }

  /** The timer and the number of fruits spawned over successive ticks. */
  function SpawnTicks(timer: real, dts: seq<real>): SpawnRun
    decreases |dts|
  {
    if dts == [] then SpawnRun(timer, 0)
    else
      var s := SpawnStep(timer, dts[0]);
      var rest := SpawnTicks(s.timer, dts[1..]);
      SpawnRun(rest.timer, s.spawned + rest.spawned)
  }

  /** No fruit is spawned over a run of ticks exactly when the timer, plus the
      time elapsed before each tick, was still below the interval at every
      tick; the timer has then grown by the whole elapsed time. After a spawn
      the timer restarts at that tick's dt, so fruits come at most once per
      interval. */
  lemma {:induction false} QuietInterval(timer: real, dts: seq<real>)
    ensures SpawnTicks(timer, dts).spawned == 0 <==>
              forall k :: 0 <= k < |dts| ==> timer + Sum(dts[..k]) < INTERVAL_SECS
    ensures SpawnTicks(timer, dts).spawned == 0 ==> SpawnTicks(timer, dts).timer == timer + Sum(dts)
    decreases |dts|
  {
    if dts != [] {
      assert Sum(dts[..0]) == 0.0;
      var t1 := timer + dts[0];
      if timer < INTERVAL_SECS {
        QuietInterval(t1, dts[1..]);
        forall k | 0 < k < |dts| ensures Sum(dts[..k]) == dts[0] + Sum(dts[1..][..k - 1]) {
          SumPrefix(dts, k);
        }
        var all := forall k :: 0 <= k < |dts| ==> timer + Sum(dts[..k]) < INTERVAL_SECS;
        var rest := forall k :: 0 <= k < |dts| - 1 ==> t1 + Sum(dts[1..][..k]) < INTERVAL_SECS;
        if rest {
          forall k | 0 <= k < |dts| ensures timer + Sum(dts[..k]) < INTERVAL_SECS {
            if k > 0 { assert t1 + Sum(dts[1..][..k - 1]) < INTERVAL_SECS; }
          }
        }
        if all {
          forall k | 0 <= k < |dts| - 1 ensures t1 + Sum(dts[1..][..k]) < INTERVAL_SECS {
            assert timer + Sum(dts[..k + 1]) < INTERVAL_SECS;
          }
        }
        assert Sum(dts) == dts[0] + Sum(dts[1..]);
      }
    }
  }

  // ---------------------------------------------------------------------------
  // Removing a fruit from the list

  /** The index of the first occurrence of x. */
  function IndexOf<T(==)>(s: seq<T>, x: T): (i: nat)
    requires x in s
    ensures i < |s| && s[i] == x && x !in s[..i]
  {
    if s[0] == x then 0
    else
      var j := IndexOf(s[1..], x);
      assert s[1..][..j] == s[1..j + 1];
      j + 1
  }

  /** list.remove(x): drops the first occurrence of x. */
  function RemoveFirst<T(==)>(s: seq<T>, x: T): (r: seq<T>)
    requires x in s
    ensures |r| == |s| - 1
    ensures multiset(r) == multiset(s) - multiset{x}
  {
    var i := IndexOf(s, x);
    assert s == s[..i] + [x] + s[i + 1..];
    s[..i] + s[i + 1..]
  }

  /** In a list without repeats, removing x leaves exactly the other entries,
      in their order. */
  lemma RemoveFirstDistinct<T>(s: seq<T>, x: T)
    requires x in s
    requires forall i, j :: 0 <= i < j < |s| ==> s[i] != s[j]
    ensures forall y :: y in RemoveFirst(s, x) <==> y in s && y != x
    ensures forall i, j :: 0 <= i < j < |RemoveFirst(s, x)| ==> RemoveFirst(s, x)[i] != RemoveFirst(s, x)[j]
    ensures RemoveFirst(s, x) == s[..IndexOf(s, x)] + s[IndexOf(s, x) + 1..]
  {
    var k := IndexOf(s, x);
    DropAtDistinct(s, k, RemoveFirst(s, x));
  }

  /** Dropping index k from a list without repeats keeps the others, each once. */
  lemma DropAtDistinct<T>(s: seq<T>, k: nat, r: seq<T>)
    requires k < |s| && r == s[..k] + s[k + 1..]
    requires forall i, j :: 0 <= i < j < |s| ==> s[i] != s[j]
    ensures forall y :: y in r <==> y in s && y != s[k]
    ensures forall i, j :: 0 <= i < j < |r| ==> r[i] != r[j]
  {
    assert forall m :: 0 <= m < |r| ==> r[m] == s[if m < k then m else m + 1];
    forall y | y in r ensures y in s && y != s[k] {
      var m :| 0 <= m < |r| && r[m] == y;
      var m' := if m < k then m else m + 1;
      assert r[m] == s[m'] && m' != k;
    }
    forall y | y in s && y != s[k] ensures y in r {
      var m :| 0 <= m < |s| && s[m] == y;
      if m < k { assert r[m] == y; } else { assert r[m - 1] == y; }
    }
    forall i, j | 0 <= i < j < |r| ensures r[i] != r[j] {
      assert r[i] == s[if i < k then i else i + 1];
      assert r[j] == s[if j < k then j else j + 1];
    }
  }

  // ---------------------------------------------------------------------------
  // Objects

  /** The snake fields a fruit changes. */
  datatype Buffs = Buffs(speedMultiplier: real, shieldTimer: real)

  function BuffsOf(s: Snake): Buffs
    reads s
  {
    Buffs(s.speedMultiplier, s.shieldTimer)
  }

  /** A fruit on the field. `carrier` and `timer` are used by speed fruits
      only; `alive` is false once the fruit has been destroyed. */
  class Fruit {
    const kind: FruitKind
    const pos: Pos
    var carrier: Snake?
    var timer: real
    var alive: bool

    constructor (k: FruitKind, at: Pos)
      ensures kind == k && pos == at && carrier == null && timer == SPEED_DUR_SECS && alive
    {
      kind := k;
      pos := at;
      carrier := null;
      timer := SPEED_DUR_SECS;
      alive := true;
    }

    /** Fruit.trigger_hit and its two overrides. Every kind leaves the
        spawner's list (list.remove fails on a fruit that is not in it). A
        plain fruit is destroyed; a speed fruit records the snake, multiplies
        its speed by 1.5 and stays alive to undo that later; a shield fruit
        sets the shield to 3 seconds and is destroyed. */
    method TriggerHit(snake: Snake, spawner: FruitsSpawner)
      requires this in spawner.fruits
      modifies this`carrier, this`alive, snake`speedMultiplier, snake`shieldTimer, spawner`fruits
      ensures spawner.fruits == RemoveFirst(old(spawner.fruits), this)
      ensures kind == Plain ==> BuffsOf(snake) == old(BuffsOf(snake)) && carrier == old(carrier) && !alive
      ensures kind == Speed ==>
                BuffsOf(snake) == old(BuffsOf(snake)).(speedMultiplier := old(snake.speedMultiplier) * SPEED_MULTIPLIER)
                && carrier == snake && alive == old(alive)
      ensures kind == Shield ==>
                BuffsOf(snake) == old(BuffsOf(snake)).(shieldTimer := SHIELD_DUR_SECS)
                && carrier == old(carrier) && !alive
    {
      match kind
      case Plain =>
        spawner.Remove(this);
        alive := false;
      case Speed =>
        carrier := snake;
        snake.speedMultiplier := snake.speedMultiplier * SPEED_MULTIPLIER;
        spawner.Remove(this);
      case Shield =>
        snake.shieldTimer := SHIELD_DUR_SECS;
        spawner.Remove(this);
        alive := false;
    }

    /** SpeedFruit.update (the other kinds do nothing on update): nothing until
        a snake is recorded, then one BoostTick on that snake's multiplier. */
    method Update(dt: real)
      modifies this`timer, this`alive, carrier
      ensures carrier != null ==> carrier.State() == old(carrier.State())
      ensures carrier != null ==>
                carrier.Rest() == old(carrier.Rest()).(speedMultiplier := carrier.speedMultiplier)
      ensures kind == Speed && carrier != null ==>
                Boost(carrier.speedMultiplier, timer, alive)
                  == BoostTick(old(Boost(carrier.speedMultiplier, timer, alive)), dt)
      ensures kind != Speed || carrier == null ==> timer == old(timer) && alive == old(alive)
      ensures kind != Speed && carrier != null ==> carrier.speedMultiplier == old(carrier.speedMultiplier)
    {
      if kind == Speed && carrier != null && alive {
        if timer < 0.0 {
          carrier.speedMultiplier := carrier.speedMultiplier / SPEED_MULTIPLIER;
          alive := false;
        }
        timer := timer - dt;
      }
    }
  }

  /** FruitsSpawner: the fruits on the field, in spawn order, and the spawn
      timer. `pause` is the engine's per-entity pause flag, set by the round
      logic; the engine's handling of it is not part of this model. */
  class FruitsSpawner {
    var fruits: seq<Fruit>
    var spawnTimer: real
    var pause: bool

    /** Each fruit is listed once. */
    ghost predicate Valid()
      reads this
    {
      forall i, j :: 0 <= i < j < |fruits| ==> fruits[i] != fruits[j]
    }

    /** The first spawn comes on the first update. */
    constructor ()
      ensures fruits == [] && spawnTimer == INTERVAL_SECS && !pause && Valid()
    {
      fruits := [];
      spawnTimer := INTERVAL_SECS;
      pause := false;
    }

    /** FruitsSpawner.update; `at` and `roll` stand for the randint calls
        (the position's coordinates are drawn inclusively from 0..W and 0..H). */
    method Update(dt: real, at: Pos, roll: int)
      requires Valid()
      modifies this`fruits, this`spawnTimer
      ensures Valid()
      ensures 0 <= roll <= 2 ==> |fruits| == |old(fruits)| + SpawnStep(old(spawnTimer), dt).spawned
      ensures spawnTimer == SpawnStep(old(spawnTimer), dt).timer
      ensures old(spawnTimer) < INTERVAL_SECS ==> fruits == old(fruits)
      ensures old(spawnTimer) >= INTERVAL_SECS ==> Spawned(old(fruits), at, roll)
      ensures old(spawnTimer) >= INTERVAL_SECS && KindOf(roll).Some? ==> fresh(fruits[|fruits| - 1])
    {
      if spawnTimer >= INTERVAL_SECS {
        spawnTimer := 0.0;
        Spawn(at, roll);
      }
      spawnTimer := spawnTimer + dt;
    }

    /** The effect of spawn on the list: one new, live, unhit fruit of the
        rolled kind with its 3-second boost timer at the end, earlier entries untouched; no fruit for a roll
        outside 0..2. */
    ghost predicate Spawned(before: seq<Fruit>, at: Pos, roll: int)
      reads this, fruits
    {
      if KindOf(roll).None? then fruits == before
      else
        && |fruits| == |before| + 1 && fruits[..|before|] == before
        && var f := fruits[|before|];
           f.kind == KindOf(roll).value && f.pos == at && f.carrier == null && f.alive
           && f.timer == SPEED_DUR_SECS
    }

    /** FruitsSpawner.spawn. */
    method Spawn(at: Pos, roll: int)
      requires Valid()
      modifies this`fruits
      ensures Valid() && Spawned(old(fruits), at, roll)
      ensures KindOf(roll).Some? ==> fresh(fruits[|fruits| - 1])
    {
      var kind := KindOf(roll);
      if kind.Some? {
        var f := new Fruit(kind.value, at);
        fruits := fruits + [f];
      }
    }

    /** list.remove on the spawner's list. */
    method Remove(f: Fruit)
      requires f in fruits
      modifies this`fruits
      ensures fruits == RemoveFirst(old(fruits), f)
    {
      fruits := RemoveFirst(fruits, f);
    }
  }

  /** The fruits' positions, in list order. */
  function Positions(fs: seq<Fruit>): seq<Pos>
  {
    seq(|fs|, i requires 0 <= i < |fs| => fs[i].pos)
  }

  /** Snake.on_hit_fruit: the snake grows by one node, then the fruit acts. */
  method OnHitFruit(snake: Snake, fruit: Fruit, spawner: FruitsSpawner)
    requires snake.Valid() && fruit in spawner.fruits
    modifies snake`nodes, snake`pos, snake`speed, snake`speedMultiplier, snake`shieldTimer
    modifies fruit`carrier, fruit`alive, spawner`fruits
    ensures snake.Valid()
    ensures snake.nodes == [Add(old(snake.nodes[0]), Scale(snake.dir, DIST_BETWEEN_NODES))] + old(snake.nodes)
    ensures snake.speed == CalcSpeed(|snake.nodes|)
    ensures spawner.fruits == RemoveFirst(old(spawner.fruits), fruit)
    ensures Hit(fruit, snake, old(BuffsOf(snake)), old(fruit.carrier), old(fruit.alive))
  {
    snake.AddNode();
    fruit.TriggerHit(snake, spawner);
  }

  /** What trigger_hit did to the snake's buffs and the fruit's own state,
      given their values before. */
  ghost predicate Hit(fruit: Fruit, snake: Snake, buffs: Buffs, carrier: Snake?, alive: bool)
    reads fruit, snake
  {
    match fruit.kind
    case Plain => BuffsOf(snake) == buffs && fruit.carrier == carrier && !fruit.alive
    case Speed =>
      BuffsOf(snake) == buffs.(speedMultiplier := buffs.speedMultiplier * SPEED_MULTIPLIER)
      && fruit.carrier == snake && fruit.alive == alive
    case Shield => BuffsOf(snake) == buffs.(shieldTimer := SHIELD_DUR_SECS) && fruit.carrier == carrier && !fruit.alive
  }

  /** Snake.check_fruit_collision: the first fruit in the list within REACH of
      the head (raw distance) is eaten, and `break` stops the scan there. */
  method CheckFruitCollision(snake: Snake, spawner: FruitsSpawner)
    requires snake.Valid()
    modifies snake`nodes, snake`pos, snake`speed, snake`speedMultiplier, snake`shieldTimer
    modifies spawner`fruits, spawner.fruits
    ensures snake.Valid()
    ensures var fs := old(spawner.fruits);
            var k := FirstWithin(old(snake.pos), Positions(fs), REACH, 0);
            && (k == |fs| ==> spawner.fruits == fs && snake.nodes == old(snake.nodes)
                              && BuffsOf(snake) == old(BuffsOf(snake)))
            && (k < |fs| ==>
                  && spawner.fruits == RemoveFirst(fs, fs[k])
                  && snake.nodes == [Add(old(snake.nodes[0]), Scale(snake.dir, DIST_BETWEEN_NODES))] + old(snake.nodes)
                  && snake.speed == CalcSpeed(|snake.nodes|)
                  && Hit(fs[k], snake, old(BuffsOf(snake)), old(fs[k].carrier), old(fs[k].alive)))
    ensures var fs := old(spawner.fruits);
            FirstWithin(old(snake.pos), Positions(fs), REACH, 0) == |fs| ==> snake.speed == old(snake.speed)
    ensures var fs := old(spawner.fruits);
            var k := FirstWithin(old(snake.pos), Positions(fs), REACH, 0);
            forall f :: f in fs && (k == |fs| || f != fs[k]) ==>
              f.carrier == old(f.carrier) && f.alive == old(f.alive)
    ensures forall f :: f in old(spawner.fruits) ==> f.timer == old(f.timer)
  {
    var i := 0;
    while i < |spawner.fruits|
      invariant 0 <= i <= |spawner.fruits| && spawner.fruits == old(spawner.fruits)
      invariant FirstWithin(snake.pos, Positions(spawner.fruits), REACH, i)
                  == FirstWithin(snake.pos, Positions(spawner.fruits), REACH, 0)
    {
      var fruit := spawner.fruits[i];
      if WithinRadius(snake.pos, fruit.pos, REACH) {
        OnHitFruit(snake, fruit, spawner);
        return;
      }
      i := i + 1;
    }
  }
}

// The value-level rules of the snake collision manager (snake.py, class
// SnakeCollisionManager): cutting an attacked snake, rejoining a snake to its
// severed skin, the pairwise pass over the registry, and the decay of skins.
module CollisionRules {
  import opened Torus
  import opened SnakeRules

  const SKIN_DISAPPEAR_AFTER_SECS: real := 10.0
  const REJOIN_R: int := 20

  /** A severed skin: its decay timer and its nodes (NodeData). */
  datatype NodeData = NodeData(timer: real, nodes: seq<Pos>)

  /** The cut-skin table, keyed by the id of the snake the skin came from. */
  type Skins = map<nat, NodeData>

  /** What the manager reads and writes of a snake. */
  datatype BodyState = BodyState(id: nat, nodes: seq<Pos>, pos: Pos, shieldTimer: real, speed: int)

  /** A snake has a head, and its position is that head. */
  predicate BodyOk(b: BodyState)
  {
    |b.nodes| >= 1 && b.pos == b.nodes[0]
  }

  /** Every stored skin has a last node to rejoin at. */
  predicate SkinsOk(skins: Skins)
  {
    forall id :: id in skins ==> |skins[id].nodes| >= 1
  }

  function Last(s: seq<Pos>): Pos
    requires |s| >= 1
  {
    s[|s| - 1]
  }

  /** An attacked snake and the skin table after one manager operation. */
  datatype Outcome = Outcome(body: BodyState, skins: Skins)

  /** SnakeCollisionManager.on_collision: the snake keeps nodes[..k], the rest
      becomes its stored skin with a fresh 10-second timer (overwriting any
      skin already stored for it), and its speed follows its new length. */
  function Cut(b: BodyState, skins: Skins, k: nat): (r: Outcome)
    requires 0 < k < |b.nodes|
    ensures |r.body.nodes| == k && b.id in r.skins
    ensures r.body.nodes + r.skins[b.id].nodes == b.nodes
    ensures r.skins[b.id].timer == SKIN_DISAPPEAR_AFTER_SECS
    ensures r.skins.Keys == skins.Keys + {b.id}
    ensures forall id :: id in skins && id != b.id ==> r.skins[id] == skins[id]
    ensures r.body == b.(nodes := r.body.nodes, speed := CalcSpeed(k))
  {
    assert b.nodes == b.nodes[..k] + b.nodes[k..];
    Outcome(b.(nodes := b.nodes[..k], speed := CalcSpeed(k)),
            skins[b.id := NodeData(SKIN_DISAPPEAR_AFTER_SECS, b.nodes[k..])])
  }

  /** SnakeCollisionManager.check_attack: the attacked snake is cut at the
      smallest i >= 1 whose node lies within NODE_R of the attacker's head;
      with no such node nothing changes. At most one cut is made and the head
      always stays. */
  function Attack(head: Pos, b: BodyState, skins: Skins): (r: Outcome)
    requires |b.nodes| > 1
    ensures (forall j :: 1 <= j < |b.nodes| ==> !WithinRadius(head, b.nodes[j], NODE_R))
              <==> r == Outcome(b, skins)
    ensures r != Outcome(b, skins) ==>
              && 1 <= |r.body.nodes| < |b.nodes|
              && WithinRadius(head, b.nodes[|r.body.nodes|], NODE_R)
              && (forall j :: 1 <= j < |r.body.nodes| ==> !WithinRadius(head, b.nodes[j], NODE_R))
              && r == Cut(b, skins, |r.body.nodes|)
    ensures 1 <= |r.body.nodes| && r.body.nodes[0] == b.nodes[0]
    ensures r.body.id == b.id && r.body.pos == b.pos && r.body.shieldTimer == b.shieldTimer
  {
    var k := FirstWithin(head, b.nodes, NODE_R, 1);
    if k == |b.nodes| then Outcome(b, skins)
    else
      var c := Cut(b, skins, k);
      assert c.body.nodes[0] == b.nodes[0] by {
        assert c.body.nodes == b.nodes[..k];
      }
      c
  }

  /** SnakeCollisionManager.rejoin: the stored skin's nodes come first, then
      the snake's own; the skin leaves the table; the position is the new
      head and the speed follows the new length. */
  function Rejoin(b: BodyState, skins: Skins): (r: Outcome)
    requires b.id in skins && |b.nodes| >= 1
    ensures r.body.nodes == skins[b.id].nodes + b.nodes
    ensures |r.body.nodes| == |skins[b.id].nodes| + |b.nodes|
    ensures b.id !in r.skins && r.skins == skins - {b.id}
    ensures BodyOk(r.body) && r.body.speed == CalcSpeed(|r.body.nodes|)
    ensures r.body.id == b.id && r.body.shieldTimer == b.shieldTimer
  {
    var nodes := skins[b.id].nodes + b.nodes;
    Outcome(b.(nodes := nodes, pos := nodes[0], speed := CalcSpeed(|nodes|)), skins - {b.id})
  }

  /** Cutting at k and then rejoining gives the old nodes rotated: the old
      tail first, then the kept front. No node is lost or duplicated. */
  lemma CutThenRejoin(b: BodyState, skins: Skins, k: nat)
    requires 0 < k < |b.nodes|
    ensures var c := Cut(b, skins, k);
            var r := Rejoin(c.body, c.skins);
            && r.body.nodes == b.nodes[k..] + b.nodes[..k]
            && multiset(r.body.nodes) == multiset(b.nodes)
            && r.body.speed == CalcSpeed(|b.nodes|)
            && r.skins == skins - {b.id}
  {
    var c := Cut(b, skins, k);
    assert c.body.nodes == b.nodes[..k];
    assert c.skins[b.id].nodes == b.nodes[k..];
    assert b.nodes == b.nodes[..k] + b.nodes[k..];
    assert c.skins - {b.id} == skins - {b.id};
  }

  /** The rejoin test of check_collisions: the snake has a stored skin and its
      position is within REJOIN_R of that skin's last node. */
  predicate CanRejoin(b: BodyState, skins: Skins)
    requires SkinsOk(skins)
  {
    b.id in skins && WithinRadius(b.pos, Last(skins[b.id].nodes), REJOIN_R)
  }

  // ---------------------------------------------------------------------------
  // The pairwise pass (check_collisions) over every registered snake

  /** The registered snakes, in registration order, and the skin table. */
  datatype Arena = Arena(bodies: seq<BodyState>, skins: Skins)

  predicate ArenaOk(w: Arena)
  {
    (forall i :: 0 <= i < |w.bodies| ==> BodyOk(w.bodies[i])) && SkinsOk(w.skins)
  }

  /** The registry keeps its length, and every snake its id and shield timer. */
  predicate SameRoster(w: Arena, v: Arena)
  {
    && |w.bodies| == |v.bodies|
    && forall i :: 0 <= i < |w.bodies| ==>
         w.bodies[i].id == v.bodies[i].id && w.bodies[i].shieldTimer == v.bodies[i].shieldTimer
  }

  /** check_attack(snakes[a], snakes[b]) under the guard of check_collisions:
      only a snake with more than one node and no shield is attacked. */
  function GuardedAttack(w: Arena, a: nat, b: nat): (r: Arena)
    requires ArenaOk(w) && a < |w.bodies| && b < |w.bodies|
    ensures ArenaOk(r) && SameRoster(w, r)
    ensures forall i :: 0 <= i < |w.bodies| && i != b ==> r.bodies[i] == w.bodies[i]
    ensures |w.bodies[b].nodes| <= 1 || w.bodies[b].shieldTimer > 0.0 ==> r == w
  {
    if |w.bodies[b].nodes| > 1 && w.bodies[b].shieldTimer <= 0.0 then
      var o := Attack(w.bodies[a].nodes[0], w.bodies[b], w.skins);
      Arena(w.bodies[b := o.body], o.skins)
    else w
  }

  /** One iteration of the inner loop: cur = snakes[c] attacks other =
      snakes[o], then other attacks cur (the second guard reads the state the
      first attack left). */
  function PairStep(w: Arena, c: nat, o: nat): (r: Arena)
    requires ArenaOk(w) && c < |w.bodies| && o < |w.bodies|
    ensures ArenaOk(r) && SameRoster(w, r)
    ensures forall i :: 0 <= i < |w.bodies| && i != c && i != o ==> r.bodies[i] == w.bodies[i]
  {
    GuardedAttack(GuardedAttack(w, c, o), o, c)
  }

  /** The inner loop `for other in snakes[1:]` from index o on. It starts at 1,
      not after c, so every snake except the first is also checked against itself. */
  function InnerPass(w: Arena, c: nat, o: nat): (r: Arena)
    requires ArenaOk(w) && c < |w.bodies|
    ensures ArenaOk(r) && SameRoster(w, r)
    decreases |w.bodies| - o
  {
    if o >= |w.bodies| then w
    else InnerPass(PairStep(w, c, o), c, o + 1)
  }

  /** The rejoin check for snakes[c] that closes its outer iteration. */
  function RejoinCheck(w: Arena, c: nat): (r: Arena)
    requires ArenaOk(w) && c < |w.bodies|
    ensures ArenaOk(r) && SameRoster(w, r)
    ensures forall i :: 0 <= i < |w.bodies| && i != c ==> r.bodies[i] == w.bodies[i]
  {
    if CanRejoin(w.bodies[c], w.skins) then
      var o := Rejoin(w.bodies[c], w.skins);
      Arena(w.bodies[c := o.body], o.skins)
    else w
  }

  /** The outer loop `for cur in snakes` from index c on. */
  function OuterPass(w: Arena, c: nat): (r: Arena)
    requires ArenaOk(w)
    ensures ArenaOk(r) && SameRoster(w, r)
    decreases |w.bodies| - c
  {
    if c >= |w.bodies| then w
    else OuterPass(RejoinCheck(InnerPass(w, c, 1), c), c + 1)
  }

  /** SnakeCollisionManager.check_collisions: nothing happens with fewer than
      two registered snakes. */
  function CheckAll(w: Arena): (r: Arena)
    requires ArenaOk(w)
    ensures ArenaOk(r) && SameRoster(w, r)
    ensures |w.bodies| < 2 ==> r == w
  {
    if |w.bodies| < 2 then w else OuterPass(w, 0)
  }

  // ---------------------------------------------------------------------------
  // Shield immunity

  /** a is what is left of b's end: b == x + a for some prefix x. */
  predicate IsSuffix(a: seq<Pos>, b: seq<Pos>)
  {
    |a| <= |b| && b[|b| - |a|..] == a
  }

  lemma SuffixTrans(a: seq<Pos>, b: seq<Pos>, c: seq<Pos>)
    requires IsSuffix(a, b) && IsSuffix(b, c)
    ensures IsSuffix(a, c)
  {
    assert c[|c| - |a|..] == c[|c| - |b|..][|b| - |a|..];
  }

  /** Every snake whose shield timer is positive still ends with the nodes it
      had: it may only have gained a skin in front. */
  predicate ShieldedKept(w: Arena, v: Arena)
    requires |w.bodies| == |v.bodies|
  {
    forall i :: 0 <= i < |w.bodies| && w.bodies[i].shieldTimer > 0.0 ==>
      IsSuffix(w.bodies[i].nodes, v.bodies[i].nodes)
  }

  lemma ShieldedKeptTrans(u: Arena, v: Arena, w: Arena)
    requires SameRoster(u, v) && SameRoster(v, w)
    requires ShieldedKept(u, v) && ShieldedKept(v, w)
    ensures SameRoster(u, w) && ShieldedKept(u, w)
  {
    forall i | 0 <= i < |u.bodies| && u.bodies[i].shieldTimer > 0.0
      ensures IsSuffix(u.bodies[i].nodes, w.bodies[i].nodes)
    {
      SuffixTrans(u.bodies[i].nodes, v.bodies[i].nodes, w.bodies[i].nodes);
    }
  }

  lemma PairStepKeepsShielded(w: Arena, c: nat, o: nat)
    requires ArenaOk(w) && c < |w.bodies| && o < |w.bodies|
    ensures ShieldedKept(w, PairStep(w, c, o))
  {
    var r := PairStep(w, c, o);
    forall i | 0 <= i < |w.bodies| && w.bodies[i].shieldTimer > 0.0
      ensures IsSuffix(w.bodies[i].nodes, r.bodies[i].nodes)
    {
      assert r.bodies[i] == w.bodies[i];
    }
  }

  lemma {:induction false} InnerPassKeepsShielded(w: Arena, c: nat, o: nat)
    requires ArenaOk(w) && c < |w.bodies|
    ensures ShieldedKept(w, InnerPass(w, c, o))
    decreases |w.bodies| - o
  {
    if o < |w.bodies| {
      var p := PairStep(w, c, o);
      assert InnerPass(w, c, o) == InnerPass(p, c, o + 1);
      PairStepKeepsShielded(w, c, o);
      InnerPassKeepsShielded(p, c, o + 1);
      ShieldedKeptTrans(w, p, InnerPass(p, c, o + 1));
    } else {
      ShieldedKeptRefl(w);
    }
  }

  lemma ShieldedKeptRefl(w: Arena)
    ensures ShieldedKept(w, w)
  {
    forall i | 0 <= i < |w.bodies| ensures IsSuffix(w.bodies[i].nodes, w.bodies[i].nodes) {
      assert w.bodies[i].nodes[0..] == w.bodies[i].nodes;
    }
  }

  lemma RejoinCheckKeepsShielded(w: Arena, c: nat)
    requires ArenaOk(w) && c < |w.bodies|
    ensures ShieldedKept(w, RejoinCheck(w, c))
  {
    var r := RejoinCheck(w, c);
    forall i | 0 <= i < |w.bodies| && w.bodies[i].shieldTimer > 0.0
      ensures IsSuffix(w.bodies[i].nodes, r.bodies[i].nodes)
    {
      var a, b := w.bodies[i].nodes, r.bodies[i].nodes;
      if i == c && CanRejoin(w.bodies[c], w.skins) {
        var skin := w.skins[w.bodies[c].id].nodes;
        assert b == skin + a;
        assert b[|b| - |a|..] == a;
      } else {
        assert b == a && b[0..] == a;
      }
    }
  }

  lemma {:induction false} OuterPassKeepsShielded(w: Arena, c: nat)
    requires ArenaOk(w)
    ensures ShieldedKept(w, OuterPass(w, c))
    decreases |w.bodies| - c
  {
    if c < |w.bodies| {
      var p := InnerPass(w, c, 1);
      var q := RejoinCheck(p, c);
      InnerPassKeepsShielded(w, c, 1);
      RejoinCheckKeepsShielded(p, c);
      ShieldedKeptTrans(w, p, q);
      OuterPassKeepsShielded(q, c + 1);
      ShieldedKeptTrans(w, q, OuterPass(q, c + 1));
    } else {
      ShieldedKeptRefl(w);
    }
  }

  /** A shielded snake is never cut by a whole check_collisions pass: its old
      nodes are all still there, at the end of its list. */
  lemma ShieldImmunity(w: Arena)
    requires ArenaOk(w)
    ensures ShieldedKept(w, CheckAll(w))
  {
    if |w.bodies| >= 2 {
      OuterPassKeepsShielded(w, 0);
    } else {
      ShieldedKeptRefl(w);
    }
  }

  // ---------------------------------------------------------------------------
  // Decay (SnakeCollisionManager.update)

  /** One tick of decay: a skin whose timer was already <= 0 is dropped; every
      other skin stays with its timer reduced by exactly dt. Nothing is added. */
  function Decay(skins: Skins, dt: real): (r: Skins)
    ensures forall id :: id in r <==> id in skins && skins[id].timer > 0.0
    ensures forall id :: id in r ==> r[id] == NodeData(skins[id].timer - dt, skins[id].nodes)
    ensures SkinsOk(skins) ==> SkinsOk(r)
  {
    map id | id in skins && skins[id].timer > 0.0 :: NodeData(skins[id].timer - dt, skins[id].nodes)
  }

  /** Decay over successive ticks of the given lengths. */
  function DecayRun(skins: Skins, dts: seq<real>): Skins
    decreases |dts|
  {
    if dts == [] then skins else DecayRun(Decay(skins, dts[0]), dts[1..])
  }

  function Sum(dts: seq<real>): real
    decreases |dts|
  {
    if dts == [] then 0.0 else dts[0] + Sum(dts[1..])
  }

  lemma SumPrefix(dts: seq<real>, m: nat)
    requires 0 < m <= |dts|
    ensures Sum(dts[..m]) == dts[0] + Sum(dts[1..][..m - 1])
  {
    assert dts[..m][1..] == dts[1..][..m - 1];
  }

  /** A skin survives a run of ticks exactly when its timer, less the time
      elapsed before each tick, was still positive at every tick; a survivor's
      timer has gone down by the whole elapsed time and its nodes are intact.
      Once dropped, a skin never returns. */
  lemma {:induction false} SkinLifetime(skins: Skins, dts: seq<real>, id: nat)
    requires id in skins
    ensures id in DecayRun(skins, dts) <==>
              forall m :: 0 <= m < |dts| ==> skins[id].timer - Sum(dts[..m]) > 0.0
    ensures id in DecayRun(skins, dts) ==>
              DecayRun(skins, dts)[id] == NodeData(skins[id].timer - Sum(dts), skins[id].nodes)
    decreases |dts|
  {
    if dts != [] {
      var d := Decay(skins, dts[0]);
      var t := skins[id].timer;
      assert Sum(dts[..0]) == 0.0;
      if id in d {
        SkinLifetime(d, dts[1..], id);
        assert d[id].timer == t - dts[0];
        forall m | 0 < m < |dts| ensures Sum(dts[..m]) == dts[0] + Sum(dts[1..][..m - 1]) {
          SumPrefix(dts, m);
        }
        var all := forall m :: 0 <= m < |dts| ==> t - Sum(dts[..m]) > 0.0;
        var rest := forall m :: 0 <= m < |dts| - 1 ==> d[id].timer - Sum(dts[1..][..m]) > 0.0;
        if rest {
          forall m | 0 <= m < |dts| ensures t - Sum(dts[..m]) > 0.0 {
            if m > 0 { assert d[id].timer - Sum(dts[1..][..m - 1]) > 0.0; }
          }
        }
        if all {
          forall m | 0 <= m < |dts| - 1 ensures d[id].timer - Sum(dts[1..][..m]) > 0.0 {
            assert t - Sum(dts[..m + 1]) > 0.0;
          }
        }
      } else {
        assert DecayRun(skins, dts) == DecayRun(d, dts[1..]);
        DecayedStaysGone(d, dts[1..], id);
      }
    }
  }

  lemma {:induction false} DecayedStaysGone(skins: Skins, dts: seq<real>, id: nat)
    requires id !in skins
    ensures id !in DecayRun(skins, dts)
    decreases |dts|
  {
    if dts != [] {
      DecayedStaysGone(Decay(skins, dts[0]), dts[1..], id);
    }
  }
}

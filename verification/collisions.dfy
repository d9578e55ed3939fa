/**
 * The per-frame combat rules: missiles against dinosaurs (head shots count,
 * body hits only waste the missile) and the helicopter against dinosaurs.
 * Bounding boxes and float positions are abstracted into given relations
 * between a missile's index and a dinosaur's index.
 */
module Collisions {
  import opened Entities

  /**
   * The outcome of the geometric tests for this frame. headShot(i, k): missile i
   * is at exactly the height of dinosaur k's head and its box meets the head's
   * box. bodyHit(i, k): missile i's box meets dinosaur k's body box.
   */
  datatype Geometry = Geometry(headShot: (nat, nat) -> bool, bodyHit: (nat, nat) -> bool)

  /** What the resolver reads and writes: both lists and the living-dinosaur counter. */
  datatype Board = Board(missiles: seq<Missile>, dinos: seq<Dino>, activeDinos: int)

  /** Missile i meets the living dinosaur k, at the head or at the body. */
  predicate Touches(g: Geometry, i: nat, dinos: seq<Dino>, k: nat)
    requires k < |dinos|
  {
    dinos[k].active && (g.headShot(i, k) || g.bodyHit(i, k))
  }

  /** Missile i meets some living dinosaur at index lo or later. */
  ghost predicate TouchesFrom(g: Geometry, i: nat, dinos: seq<Dino>, lo: nat)
  {
    exists k :: lo <= k < |dinos| && Touches(g, i, dinos, k)
  }

  /** Missile i head-shots no living dinosaur with index in [lo, hi). */
  ghost predicate NoHeadShot(g: Geometry, i: nat, dinos: seq<Dino>, lo: nat, hi: nat)
    requires lo <= hi <= |dinos|
  {
    forall k :: lo <= k < hi ==> !(dinos[k].active && g.headShot(i, k))
  }

  /**
   * The inner loop of the resolver for missile i, from dinosaur j on. Dead
   * dinosaurs are skipped. A head shot deactivates the missile, adds one hit,
   * destroys the dinosaur (decrementing the counter) once its hits reach m, and
   * ends the scan. A body hit deactivates the missile and the scan goes on, so
   * a later dinosaur can still take a head shot from the same missile.
   */
  function ScanDinos(g: Geometry, m: int, i: nat, b: Board, j: nat): (r: Board)
    requires i < |b.missiles| && j <= |b.dinos|
    ensures |r.missiles| == |b.missiles| && |r.dinos| == |b.dinos|
    decreases |b.dinos| - j
  {
    if j == |b.dinos| then b
    else if !b.dinos[j].active then ScanDinos(g, m, i, b, j + 1)
    else if g.headShot(i, j) then
      var hits := b.dinos[j].hits + 1;
      Board(b.missiles[i := b.missiles[i].(active := false)],
            b.dinos[j := b.dinos[j].(hits := hits, active := hits < m)],
            if hits >= m then b.activeDinos - 1 else b.activeDinos)
    else if g.bodyHit(i, j) then
      ScanDinos(g, m, i, b.(missiles := b.missiles[i := b.missiles[i].(active := false)]), j + 1)
    else ScanDinos(g, m, i, b, j + 1)
  }

  /** The outer loop of the resolver: every active missile from index i on, in order. */
  function Resolve(g: Geometry, m: int, b: Board, i: nat): (r: Board)
    requires i <= |b.missiles|
    ensures |r.missiles| == |b.missiles| && |r.dinos| == |b.dinos|
    decreases |b.missiles| - i
  {
    if i == |b.missiles| then b
    else if !b.missiles[i].active then Resolve(g, m, b, i + 1)
    else Resolve(g, m, ScanDinos(g, m, i, b, 0), i + 1)
  }

  /**
   * A scan touches only missile i, and leaves it active exactly when it was
   * active and met no living dinosaur, head or body, from index j on.
   */
  lemma {:induction false} ScanMissileEffect(g: Geometry, m: int, i: nat, b: Board, j: nat)
    requires i < |b.missiles| && j <= |b.dinos|
    ensures forall k :: 0 <= k < |b.missiles| && k != i ==>
              ScanDinos(g, m, i, b, j).missiles[k] == b.missiles[k]
    ensures (ScanDinos(g, m, i, b, j).missiles[i].active
             <==> b.missiles[i].active && !TouchesFrom(g, i, b.dinos, j))
    decreases |b.dinos| - j
  {
    if j == |b.dinos| {
    } else if !b.dinos[j].active {
      ScanMissileEffect(g, m, i, b, j + 1);
      assert TouchesFrom(g, i, b.dinos, j) <==> TouchesFrom(g, i, b.dinos, j + 1);
    } else if g.headShot(i, j) {
      assert Touches(g, i, b.dinos, j);
    } else if g.bodyHit(i, j) {
      assert Touches(g, i, b.dinos, j);
      ScanMissileEffect(g, m, i, b.(missiles := b.missiles[i := b.missiles[i].(active := false)]), j + 1);
    } else {
      ScanMissileEffect(g, m, i, b, j + 1);
      assert TouchesFrom(g, i, b.dinos, j) <==> TouchesFrom(g, i, b.dinos, j + 1);
    }
  }

  /** Without a head shot, body hits change no dinosaur and not the counter. */
  lemma {:induction false} ScanWithoutHeadShot(g: Geometry, m: int, i: nat, b: Board, j: nat)
    requires i < |b.missiles| && j <= |b.dinos|
    requires NoHeadShot(g, i, b.dinos, j, |b.dinos|)
    ensures ScanDinos(g, m, i, b, j).dinos == b.dinos
    ensures ScanDinos(g, m, i, b, j).activeDinos == b.activeDinos
    decreases |b.dinos| - j
  {
    if j == |b.dinos| {
    } else if !b.dinos[j].active {
      ScanWithoutHeadShot(g, m, i, b, j + 1);
    } else if g.bodyHit(i, j) {
      ScanWithoutHeadShot(g, m, i, b.(missiles := b.missiles[i := b.missiles[i].(active := false)]), j + 1);
    } else {
      ScanWithoutHeadShot(g, m, i, b, j + 1);
    }
  }

  /**
   * The first living dinosaur k that missile i head-shots takes exactly one more
   * hit and dies once its hits reach m, the counter drops by one exactly then,
   * and no other dinosaur changes: the scan ends at the first head shot.
   */
  lemma {:induction false} ScanFirstHeadShot(g: Geometry, m: int, i: nat, b: Board, j: nat, k: nat)
    requires i < |b.missiles| && j <= k < |b.dinos|
    requires b.dinos[k].active && g.headShot(i, k)
    requires NoHeadShot(g, i, b.dinos, j, k)
    ensures ScanDinos(g, m, i, b, j).dinos
              == b.dinos[k := Dino(b.dinos[k].hits + 1, b.dinos[k].hits + 1 < m)]
    ensures ScanDinos(g, m, i, b, j).activeDinos
              == if b.dinos[k].hits + 1 >= m then b.activeDinos - 1 else b.activeDinos
    decreases k - j
  {
    if j == k {
    } else if !b.dinos[j].active {
      ScanFirstHeadShot(g, m, i, b, j + 1, k);
    } else if g.bodyHit(i, j) {
      ScanFirstHeadShot(g, m, i, b.(missiles := b.missiles[i := b.missiles[i].(active := false)]), j + 1, k);
    } else {
      ScanFirstHeadShot(g, m, i, b, j + 1, k);
    }
  }

  /**
   * The counter moves with the dinosaurs: a scan changes activeDinos by exactly
   * the change in the number of living dinosaurs.
   */
  lemma {:induction false} ScanKeepsCount(g: Geometry, m: int, i: nat, b: Board, j: nat)
    requires i < |b.missiles| && j <= |b.dinos|
    ensures var r := ScanDinos(g, m, i, b, j);
            r.activeDinos - CountActive(r.dinos) == b.activeDinos - CountActive(b.dinos)
    decreases |b.dinos| - j
  {
    if j == |b.dinos| {
    } else if !b.dinos[j].active {
      ScanKeepsCount(g, m, i, b, j + 1);
    } else if g.headShot(i, j) {
      var hits := b.dinos[j].hits + 1;
      CountActiveUpdate(b.dinos, j, b.dinos[j].(hits := hits, active := hits < m));
    } else if g.bodyHit(i, j) {
      ScanKeepsCount(g, m, i, b.(missiles := b.missiles[i := b.missiles[i].(active := false)]), j + 1);
    } else {
      ScanKeepsCount(g, m, i, b, j + 1);
    }
  }

  /** The whole resolution keeps the counter equal to the number of living dinosaurs. */
  lemma {:induction false} ResolveKeepsCount(g: Geometry, m: int, b: Board, i: nat)
    requires i <= |b.missiles|
    ensures var r := Resolve(g, m, b, i);
            r.activeDinos - CountActive(r.dinos) == b.activeDinos - CountActive(b.dinos)
    decreases |b.missiles| - i
  {
    if i == |b.missiles| {
    } else if !b.missiles[i].active {
      ResolveKeepsCount(g, m, b, i + 1);
    } else {
      ScanKeepsCount(g, m, i, b, 0);
      ResolveKeepsCount(g, m, ScanDinos(g, m, i, b, 0), i + 1);
    }
  }

  /**
   * How a board may change in one resolution: both lists keep their length,
   * the counter never grows, missiles and dinosaurs are only ever deactivated,
   * hit counters never decrease, and dead dinosaurs are left alone.
   */
  ghost predicate Evolves(b: Board, r: Board)
  {
    && |r.missiles| == |b.missiles| && |r.dinos| == |b.dinos|
    && r.activeDinos <= b.activeDinos
    && (forall k :: 0 <= k < |b.missiles| && r.missiles[k].active ==> b.missiles[k].active)
    && (forall k :: 0 <= k < |b.dinos| ==> b.dinos[k].hits <= r.dinos[k].hits)
    && (forall k :: 0 <= k < |b.dinos| && r.dinos[k].active ==> b.dinos[k].active)
    && (forall k :: 0 <= k < |b.dinos| && !b.dinos[k].active ==> r.dinos[k] == b.dinos[k])
  }

  /** One missile's scan is such a change. */
  lemma {:induction false} ScanEvolves(g: Geometry, m: int, i: nat, b: Board, j: nat)
    requires i < |b.missiles| && j <= |b.dinos|
    ensures Evolves(b, ScanDinos(g, m, i, b, j))
    decreases |b.dinos| - j
  {
    if j == |b.dinos| {
    } else if !b.dinos[j].active {
      ScanEvolves(g, m, i, b, j + 1);
    } else if g.headShot(i, j) {
    } else if g.bodyHit(i, j) {
      var b' := b.(missiles := b.missiles[i := b.missiles[i].(active := false)]);
      ScanEvolves(g, m, i, b', j + 1);
    } else {
      ScanEvolves(g, m, i, b, j + 1);
    }
  }

  /** The whole resolution is such a change. */
  lemma {:induction false} ResolveEvolves(g: Geometry, m: int, b: Board, i: nat)
    requires i <= |b.missiles|
    ensures Evolves(b, Resolve(g, m, b, i))
    decreases |b.missiles| - i
  {
    if i == |b.missiles| {
    } else if !b.missiles[i].active {
      ResolveEvolves(g, m, b, i + 1);
    } else {
      ScanEvolves(g, m, i, b, 0);
      ResolveEvolves(g, m, ScanDinos(g, m, i, b, 0), i + 1);
    }
  }

  /**
   * Spent missiles are skipped: when no missile from index i on is active,
   * resolution changes nothing, so a spent missile never scores again.
   */
  lemma {:induction false} ResolveSkipsSpent(g: Geometry, m: int, b: Board, i: nat)
    requires i <= |b.missiles|
    requires forall k :: i <= k < |b.missiles| ==> !b.missiles[k].active
    ensures Resolve(g, m, b, i) == b
    decreases |b.missiles| - i
  {
    if i < |b.missiles| {
      ResolveSkipsSpent(g, m, b, i + 1);
    }
  }

  /** The number of active missiles with index i or later. */
  function ActiveMissilesFrom(missiles: seq<Missile>, i: nat): nat
    decreases |missiles| - i
  {
    if i >= |missiles| then 0
    else (if missiles[i].active then 1 else 0) + ActiveMissilesFrom(missiles, i + 1)
  }

  /** Deactivating missiles never raises the number of active ones. */
  lemma {:induction false} ActiveMissilesFromMonotone(before: seq<Missile>, after: seq<Missile>, i: nat)
    requires |after| == |before|
    requires forall k :: i <= k < |before| && after[k].active ==> before[k].active
    ensures ActiveMissilesFrom(after, i) <= ActiveMissilesFrom(before, i)
    decreases |before| - i
  {
    if i < |before| {
      ActiveMissilesFromMonotone(before, after, i + 1);
    }
  }

  /** One missile's scan adds at most one hit in all. */
  lemma {:induction false} ScanAddsAtMostOneHit(g: Geometry, m: int, i: nat, b: Board, j: nat)
    requires i < |b.missiles| && j <= |b.dinos|
    ensures TotalHits(ScanDinos(g, m, i, b, j).dinos) <= TotalHits(b.dinos) + 1
    decreases |b.dinos| - j
  {
    if j == |b.dinos| {
    } else if !b.dinos[j].active {
      ScanAddsAtMostOneHit(g, m, i, b, j + 1);
    } else if g.headShot(i, j) {
      var hits := b.dinos[j].hits + 1;
      TotalHitsUpdate(b.dinos, j, b.dinos[j].(hits := hits, active := hits < m));
    } else if g.bodyHit(i, j) {
      ScanAddsAtMostOneHit(g, m, i, b.(missiles := b.missiles[i := b.missiles[i].(active := false)]), j + 1);
    } else {
      ScanAddsAtMostOneHit(g, m, i, b, j + 1);
    }
  }

  /**
   * Each active missile scores at most one head shot: resolution adds at most
   * as many hits in all as there are active missiles from index i on.
   */
  lemma {:induction false} ResolveHitsBound(g: Geometry, m: int, b: Board, i: nat)
    requires i <= |b.missiles|
    ensures TotalHits(Resolve(g, m, b, i).dinos) <= TotalHits(b.dinos) + ActiveMissilesFrom(b.missiles, i)
    decreases |b.missiles| - i
  {
    if i == |b.missiles| {
    } else if !b.missiles[i].active {
      ResolveHitsBound(g, m, b, i + 1);
    } else {
      var s := ScanDinos(g, m, i, b, 0);
      ScanAddsAtMostOneHit(g, m, i, b, 0);
      ScanEvolves(g, m, i, b, 0);
      ActiveMissilesFromMonotone(b.missiles, s.missiles, i + 1);
      ResolveHitsBound(g, m, s, i + 1);
    }
  }

  /**
   * On the easy level (two head shots to kill), two missiles that both head-shot
   * the one living dinosaur destroy it and bring the counter from 1 to 0.
   */
  lemma TwoHeadShotsKillOnEasy()
    ensures LevelParams(1).Some?
    ensures var g := Geometry((i: nat, k: nat) => true, (i: nat, k: nat) => false);
            var r := Resolve(g, LevelParams(1).value.hitsToKill,
                             Board([Missile(true), Missile(true)], [Dino(0, true)], 1), 0);
            r == Board([Missile(false), Missile(false)], [Dino(2, false)], 0)
  {
    var g := Geometry((i: nat, k: nat) => true, (i: nat, k: nat) => false);
    var b0 := Board([Missile(true), Missile(true)], [Dino(0, true)], 1);
    var b1 := Board([Missile(false), Missile(true)], [Dino(1, true)], 1);
    var b2 := Board([Missile(false), Missile(false)], [Dino(2, false)], 0);
    assert ScanDinos(g, 2, 0, b0, 0) == b1;
    assert ScanDinos(g, 2, 1, b1, 0) == b2;
  }

  /**
   * A body hit does not end the scan: a missile that first meets dinosaur 0's
   * body and then dinosaur 1's head still scores that head shot, and is spent.
   */
  lemma BodyHitDoesNotStopScan()
    ensures var g := Geometry((i: nat, k: nat) => k == 1, (i: nat, k: nat) => true);
            var r := ScanDinos(g, 3, 0, Board([Missile(true)], [Dino(0, true), Dino(0, true)], 2), 0);
            r == Board([Missile(false)], [Dino(0, true), Dino(1, true)], 2)
  {
    var g := Geometry((i: nat, k: nat) => k == 1, (i: nat, k: nat) => true);
    var b0 := Board([Missile(true)], [Dino(0, true), Dino(0, true)], 2);
    var b1 := Board([Missile(false)], [Dino(0, true), Dino(0, true)], 2);
    assert ScanDinos(g, 3, 0, b0, 0) == ScanDinos(g, 3, 0, b1, 1);
  }

  /** The helicopter collides when it meets the body of some living dinosaur. */
  ghost predicate HelicopterCollides(dinos: seq<Dino>, touches: nat -> bool)
  {
    exists k :: 0 <= k < |dinos| && dinos[k].active && touches(k)
  }

  /**
   * The helicopter test: scans the dinosaurs in order and answers on the first
   * living one whose body the helicopter meets (touches(k)); changes nothing.
   */
  method CheckHelicopterCollision(dinos: seq<Dino>, touches: nat -> bool) returns (hit: bool)
    ensures hit <==> HelicopterCollides(dinos, touches)
  {
    var k := 0;
    while k < |dinos|
      invariant k <= |dinos|
      invariant forall q :: 0 <= q < k ==> !(dinos[q].active && touches(q))
    {
      if dinos[k].active && touches(k) {
        return true;
      }
      k := k + 1;
    }
    return false;
  }
}

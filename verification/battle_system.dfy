/** The battle system (BattleSystem.cs): every entity that can fight looks,
    in the dictionary's enumeration order, for the first other entity with a
    position and health within its battle radius, and logs the attack. */
module BattleTargeting {
  import opened Wrappers
  import opened Entities

  /** One dictionary entry as the battle system sees it: the key and the
      entity's name and components at the time of the update. */
  datatype EntityEntry = EntityEntry(id: nat, name: string, components: map<ComponentType, Component>)

  /** One Log.Info line: who attacks whom. */
  datatype Attack = Attack(attacker: EntityEntry, target: EntityEntry)

  function TransformOf(e: EntityEntry): (r: Option<TransformComponent>)
    ensures r.Some? <==> TransformType in e.components && e.components[TransformType].Transform?
  {
    match Lookup(e.components, TransformType)
    case Some(Transform(t)) => Some(t)
    case _ => None
  }

  function BattleOf(e: EntityEntry): (r: Option<BattleComponent>)
    ensures r.Some? <==> BattleType in e.components && e.components[BattleType].Battle?
  {
    match Lookup(e.components, BattleType)
    case Some(Battle(b)) => Some(b)
    case _ => None
  }

  predicate HasHealth(e: EntityEntry) {
    Lookup(e.components, HealthType).Some?
  }

  /** C#'s unchecked 32-bit int arithmetic: the value wrapped into
      [-2^31, 2^31). */
  function Int32(n: int): (r: int)
    ensures -0x8000_0000 <= r < 0x8000_0000
    ensures -0x8000_0000 <= n < 0x8000_0000 ==> r == n
  {
    (n + 0x8000_0000) % 0x1_0000_0000 - 0x8000_0000
  }

  /** IsInRange exactly as written: the differences, squares and sum are
      32-bit ints that wrap silently, and the sum is then compared with the
      squared radius. */
  predicate IsInRangeAsWritten(trans1: TransformComponent, trans2: TransformComponent, radius: real) {
    var deltaX := Int32(trans1.posX - trans2.posX);
    var deltaY := Int32(trans1.posY - trans2.posY);
    Int32(Int32(deltaX * deltaX) + Int32(deltaY * deltaY)) as real <= radius * radius
  }

  /** The intended test: the squared Euclidean distance between the two
      positions is at most the squared radius, boundary included. */
  predicate IsInRange(trans1: TransformComponent, trans2: TransformComponent, radius: real) {
    var deltaX := trans1.posX - trans2.posX;
    var deltaY := trans1.posY - trans2.posY;
    (deltaX * deltaX + deltaY * deltaY) as real <= radius * radius
  }

  /** Two positions 46341 apart on the x axis: 46341 * 46341 overflows a
      32-bit int to a negative number, so the code as written puts them in
      range of each other for a radius of 1. */
  lemma IsInRangeAsWrittenOverflows()
    ensures var near := TransformComponent(0, 0, Vector2(0.0, 0.0));
            var far := TransformComponent(46341, 0, Vector2(0.0, 0.0));
            IsInRangeAsWritten(near, far, 1.0) && !IsInRange(near, far, 1.0)
  {
    var near := TransformComponent(0, 0, Vector2(0.0, 0.0));
    var far := TransformComponent(46341, 0, Vector2(0.0, 0.0));
    assert Int32(near.posX - far.posX) == -46341;
    assert Int32(-46341 * -46341) == -2147479015;
    assert Int32(near.posY - far.posY) == 0;
    assert Int32(-2147479015 + Int32(0 * 0)) == -2147479015;
  }

  /** While every coordinate stays within +-16383 nothing wraps, and the code
      as written decides exactly as intended. */
  lemma AsWrittenAgreesOnSmallCoordinates(trans1: TransformComponent, trans2: TransformComponent, radius: real)
    requires -16383 <= trans1.posX <= 16383 && -16383 <= trans1.posY <= 16383
    requires -16383 <= trans2.posX <= 16383 && -16383 <= trans2.posY <= 16383
    ensures IsInRangeAsWritten(trans1, trans2, radius) == IsInRange(trans1, trans2, radius)
  {
    var deltaX := trans1.posX - trans2.posX;
    var deltaY := trans1.posY - trans2.posY;
    SquareBound(deltaX);
    SquareBound(deltaY);
  }

  lemma SquareBound(d: int)
    requires -32766 <= d <= 32766
    ensures 0 <= d * d <= 32766 * 32766
  {
    var a := if d < 0 then -d else d;
    assert d * d == a * a;
    NonNegativeProduct(a, 32766 - a);
    assert a * 32766 - a * a == a * (32766 - a);
    NonNegativeProduct(32766 - a, 32766);
    assert 32766 * 32766 - a * 32766 == (32766 - a) * 32766;
  }

  lemma NonNegativeProduct(a: int, b: int)
    requires a >= 0 && b >= 0
    ensures a * b >= 0
  {
  }

  /** Being in range does not depend on the order of the two transforms. */
  lemma IsInRangeSymmetric(trans1: TransformComponent, trans2: TransformComponent, radius: real)
    ensures IsInRange(trans1, trans2, radius) == IsInRange(trans2, trans1, radius)
    ensures IsInRangeAsWritten(trans1, trans2, radius) == IsInRangeAsWritten(trans2, trans1, radius)
  {
    var dx := trans1.posX - trans2.posX;
    var dy := trans1.posY - trans2.posY;
    assert (-dx) * (-dx) == dx * dx && (-dy) * (-dy) == dy * dy;
    Int32Negate(dx);
    Int32Negate(dy);
  }

  /** Wrapping commutes with negation up to the square: (-d) and d wrap to
      values whose squares wrap alike. */
  lemma Int32Negate(d: int)
    ensures Int32(Int32(-d) * Int32(-d)) == Int32(Int32(d) * Int32(d))
  {
    var w := Int32(d);
    var v := Int32(-d);
    var k := (d + 0x8000_0000) / 0x1_0000_0000;
    assert w == d - k * 0x1_0000_0000;
    var j := (-d + 0x8000_0000) / 0x1_0000_0000;
    assert v == -d - j * 0x1_0000_0000;
    assert v + w == -(j + k) * 0x1_0000_0000;
    // v == -w + m * 2^32 for m == -(j + k), so v * v and w * w differ by a multiple of 2^32.
    var m := -(j + k);
    assert v == -w + m * 0x1_0000_0000;
    assert v * v == w * w + (m * m * 0x1_0000_0000 - 2 * w * m) * 0x1_0000_0000;
    ModShift(w * w, m * m * 0x1_0000_0000 - 2 * w * m);
  }

  lemma ModShift(a: int, q: int)
    ensures Int32(a + q * 0x1_0000_0000) == Int32(a)
  {
    assert (a + q * 0x1_0000_0000 + 0x8000_0000) % 0x1_0000_0000 == (a + 0x8000_0000) % 0x1_0000_0000;
  }

  /** A negative radius acts like its absolute value: only its square is used. */
  lemma RadiusSignIgnored(trans1: TransformComponent, trans2: TransformComponent, radius: real)
    ensures IsInRange(trans1, trans2, -radius) == IsInRange(trans1, trans2, radius)
  {
    assert (-radius) * (-radius) == radius * radius;
  }

  /** A larger radius keeps everything that was in range in range. */
  lemma IsInRangeMonotone(trans1: TransformComponent, trans2: TransformComponent, r1: real, r2: real)
    requires 0.0 <= r1 <= r2 && IsInRange(trans1, trans2, r1)
    ensures IsInRange(trans1, trans2, r2)
  {
    assert r1 * r1 <= r1 * r2 <= r2 * r2;
  }

  /** The checks FindTargetEntity applies to one entry: not the searcher
      itself, has a transform and a health component, and lies in range. */
  predicate IsTarget(selfId: nat, selfTransform: TransformComponent, radius: real, e: EntityEntry) {
    e.id != selfId && TransformOf(e).Some? && HasHealth(e)
    && IsInRange(selfTransform, TransformOf(e).value, radius)
  }

  /** The first entry, in enumeration order, that passes every check, or
      nothing (null) when none does. */
  function FindTargetEntity(selfId: nat, selfTransform: TransformComponent, radius: real,
                            entries: seq<EntityEntry>): (r: Option<EntityEntry>)
    ensures r.Some? ==> r.value.id != selfId && TransformOf(r.value).Some? && HasHealth(r.value)
    ensures r.None? <==> forall i :: 0 <= i < |entries| ==> !IsTarget(selfId, selfTransform, radius, entries[i])
    ensures r.Some? ==> exists i :: 0 <= i < |entries| && entries[i] == r.value
                          && IsTarget(selfId, selfTransform, radius, r.value)
                          && forall j :: 0 <= j < i ==> !IsTarget(selfId, selfTransform, radius, entries[j])
  {
    if entries == [] then None
    else if IsTarget(selfId, selfTransform, radius, entries[0]) then Some(entries[0])
    else
      var r := FindTargetEntity(selfId, selfTransform, radius, entries[1..]);
      assert forall i :: 1 <= i < |entries| ==> entries[i] == entries[1..][i - 1];
      r
  }

  /** The attacks logged while the outer loop visits `visiting`, each search
      running over the whole dictionary `all`. */
  function UpdateFrom(visiting: seq<EntityEntry>, all: seq<EntityEntry>): (log: seq<Attack>)
    ensures |log| <= |visiting|
  {
    if visiting == [] then []
    else
      var e := visiting[0];
      var rest := UpdateFrom(visiting[1..], all);
      match (BattleOf(e), TransformOf(e))
      case (Some(battle), Some(transform)) =>
        (match FindTargetEntity(e.id, transform, battle.battleRadius, all)
         case Some(target) => [Attack(e, target)] + rest
         case None => rest)
      case _ => rest
  }

  /** BattleSystem.Update: one search per entity that has both a battle and a
      transform component, one log line per target found. */
  function Update(entries: seq<EntityEntry>): (log: seq<Attack>)
    ensures |log| <= |entries|
    ensures forall a :: a in log ==> a.attacker in entries && a.target in entries && a.attacker.id != a.target.id
  {
    UpdateFromMembers(entries, entries);
    UpdateFromLogsFirstMatch(entries, entries);
    UpdateFrom(entries, entries)
  }

  /** Every logged attacker was visited and every logged target comes from
      the dictionary searched. */
  lemma {:induction false} UpdateFromMembers(visiting: seq<EntityEntry>, all: seq<EntityEntry>)
    ensures forall a :: a in UpdateFrom(visiting, all) ==> a.attacker in visiting && a.target in all
  {
    if visiting != [] {
      UpdateFromMembers(visiting[1..], all);
      var e := visiting[0];
      if Armed(e) && SearchFor(e, all).Some? {
        assert UpdateFrom(visiting, all) == [Attack(e, SearchFor(e, all).value)] + UpdateFrom(visiting[1..], all);
      } else {
        assert UpdateFrom(visiting, all) == UpdateFrom(visiting[1..], all);
      }
    }
  }

  /** Whether the outer loop runs a search for `e`: it has both a battle and a
      transform component. */
  predicate Armed(e: EntityEntry) {
    BattleOf(e).Some? && TransformOf(e).Some?
  }

  /** The search the outer loop runs for an armed entity. */
  function SearchFor(e: EntityEntry, all: seq<EntityEntry>): Option<EntityEntry>
    requires Armed(e)
  {
    FindTargetEntity(e.id, TransformOf(e).value, BattleOf(e).value.battleRadius, all)
  }

  /** Every armed visitor whose search finds a target logs an attack on that
      target. */
  lemma {:induction false} UpdateFromLogsEveryHit(visiting: seq<EntityEntry>, all: seq<EntityEntry>, i: int)
    requires 0 <= i < |visiting| && Armed(visiting[i]) && SearchFor(visiting[i], all).Some?
    ensures Attack(visiting[i], SearchFor(visiting[i], all).value) in UpdateFrom(visiting, all)
  {
    if i > 0 {
      UpdateFromLogsEveryHit(visiting[1..], all, i - 1);
      assert visiting[1..][i - 1] == visiting[i];
    }
  }

  /** Every logged attack is the attacker's own search result: the first entry
      of the dictionary that passes FindTargetEntity's checks. */
  lemma {:induction false} UpdateFromLogsFirstMatch(visiting: seq<EntityEntry>, all: seq<EntityEntry>)
    ensures forall a :: a in UpdateFrom(visiting, all) ==> Armed(a.attacker) && SearchFor(a.attacker, all) == Some(a.target)
  {
    if visiting != [] {
      UpdateFromLogsFirstMatch(visiting[1..], all);
    }
  }

  /** The log follows the order of the outer loop: visiting one part of the
      dictionary after another logs one part's attacks after the other's. */
  lemma {:induction false} UpdateFromAppend(v1: seq<EntityEntry>, v2: seq<EntityEntry>, all: seq<EntityEntry>)
    ensures UpdateFrom(v1 + v2, all) == UpdateFrom(v1, all) + UpdateFrom(v2, all)
  {
    if v1 != [] {
      var e, t := v1[0], v1[1..];
      UpdateFromAppend(t, v2, all);
      assert v1 + v2 == [e] + (t + v2);
      assert v1 == [e] + t;
      UpdateFromCons(e, t + v2, all);
      UpdateFromCons(e, t, all);
    } else {
      assert v1 + v2 == v2;
    }
  }

  /** The first visit's lines come before the rest of the log. */
  lemma UpdateFromCons(e: EntityEntry, rest: seq<EntityEntry>, all: seq<EntityEntry>)
    ensures UpdateFrom([e] + rest, all) == UpdateFrom([e], all) + UpdateFrom(rest, all)
  {
    assert ([e] + rest)[0] == e && ([e] + rest)[1..] == rest && [e][1..] == [];
  }

  /** One visit logs one line exactly when the entity is armed and its search
      finds a target. */
  lemma UpdateFromSingle(e: EntityEntry, all: seq<EntityEntry>)
    ensures Armed(e) && SearchFor(e, all).Some? ==> UpdateFrom([e], all) == [Attack(e, SearchFor(e, all).value)]
    ensures !(Armed(e) && SearchFor(e, all).Some?) ==> UpdateFrom([e], all) == []
  {
    assert [e][1..] == [];
  }

  /** Update over the whole dictionary: every armed entity whose search finds
      a target attacks that target, and every attack logged is such a search's
      first match. */
  lemma UpdateLogsExactlyTheHits(entries: seq<EntityEntry>)
    ensures forall i :: 0 <= i < |entries| && Armed(entries[i]) && SearchFor(entries[i], entries).Some? ==>
      Attack(entries[i], SearchFor(entries[i], entries).value) in Update(entries)
    ensures forall a :: a in Update(entries) ==> Armed(a.attacker) && SearchFor(a.attacker, entries) == Some(a.target)
  {
    forall i | 0 <= i < |entries| && Armed(entries[i]) && SearchFor(entries[i], entries).Some?
      ensures Attack(entries[i], SearchFor(entries[i], entries).value) in Update(entries)
    {
      UpdateFromLogsEveryHit(entries, entries, i);
    }
    UpdateFromLogsFirstMatch(entries, entries);
  }

  /** When nobody has a health component nobody is attacked. */
  lemma {:induction false} NoHealthNoAttack(visiting: seq<EntityEntry>, all: seq<EntityEntry>)
    requires forall e :: e in all ==> !HasHealth(e)
    ensures UpdateFrom(visiting, all) == []
  {
    if visiting != [] {
      NoHealthNoAttack(visiting[1..], all);
      var e := visiting[0];
      if BattleOf(e).Some? && TransformOf(e).Some? {
        assert FindTargetEntity(e.id, TransformOf(e).value, BattleOf(e).value.battleRadius, all).None?;
      }
    }
  }
}

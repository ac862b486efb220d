/**
 Where the scene object for a placement ends up: its world position, rotation
 and scale. A building is instantiated at its grid position, scaled to
 (1, h, 1) and then lifted by h / 2, so that a unit-height prefab centred on
 its origin stands with its base on the ground plane. Float arithmetic is
 modelled with exact reals.
 */
module CityGeometry {
  import opened CityLayout

  datatype Vec3 = Vec3(x: real, y: real, z: real) {
    function Plus(other: Vec3): Vec3 {
      Vec3(x + other.x, y + other.y, z + other.z)
    }
  }

  /** The only rotation the generator uses. */
  datatype Rotation = Identity

  /** A road keeps the prefab's own scale; a building's local scale is set. */
  datatype Scale = PrefabScale | LocalScale(factor: Vec3)

  datatype Transform = Transform(position: Vec3, rotation: Rotation, scale: Scale)

  /** The world position of grid cell (x, z): `blockSpacing` world units
      between neighbouring cells, on the ground plane. */
  function GridPosition(x: int, z: int, spacing: real): Vec3 {
    Vec3(x as real * spacing, 0.0, z as real * spacing)
  }

  /** The transform of the object spawned for a placement, built in the
      order the generator builds it: instantiate at the grid position with
      identity rotation; for a building, then set its local scale and then
      raise its position by half its height. */
  function Spawn(p: Placement, spacing: real): (t: Transform)
    ensures t.rotation == Identity
    ensures t.position.x == p.x as real * spacing && t.position.z == p.z as real * spacing
    ensures p.Road? ==> t.position.y == 0.0 && t.scale == PrefabScale
    ensures p.Building? ==>
      && t.scale.LocalScale?
      && t.scale.factor.x == 1.0 && t.scale.factor.z == 1.0
      && t.scale.factor.y == p.height as real
      && t.position.y - t.scale.factor.y / 2.0 == 0.0
      && t.position.y + t.scale.factor.y / 2.0 == p.height as real
  {
    var spawned := Transform(GridPosition(p.x, p.z, spacing), Identity, PrefabScale);
    match p
    case Road(_, _) => spawned
    case Building(_, _, h) =>
      var scaled := spawned.(scale := LocalScale(Vec3(1.0, h as real, 1.0)));
      scaled.(position := scaled.position.Plus(Vec3(0.0, h as real / 2.0, 0.0)))
  }

  /** Neighbouring cells are one block spacing apart along each axis. */
  lemma NeighboursOneSpacingApart(x: int, z: int, spacing: real)
    ensures GridPosition(x + 1, z, spacing).x - GridPosition(x, z, spacing).x == spacing
    ensures GridPosition(x, z + 1, spacing).z - GridPosition(x, z, spacing).z == spacing
  {
  }

  /** Every building of a sweep stands on the ground plane and reaches up to
      its drawn height; every road lies flat on the ground at its cell. */
  lemma SweepObjectsGrounded(width: int, length: int, freq: int, draw: nat -> int32, spacing: real, k: int)
    requires freq != 0 && 0 <= k < CellCount(width, length)
    ensures var p := Sweep(width, length, freq, draw)[k];
      var t := Spawn(p, spacing);
      && t.position.x == (k / length) as real * spacing
      && t.position.z == (k % length) as real * spacing
      && (t.scale.LocalScale? <==> !IsRoad(k / length, k % length, freq))
      && (t.scale.LocalScale? ==> t.position.y - t.scale.factor.y / 2.0 == 0.0)
      && (t.scale == PrefabScale ==> t.position.y == 0.0)
  {
    SweepAt(width, length, freq, draw, k);
  }
}

/**
 The city generator component: its inspector settings and the container of
 spawned children, which `GenerateCity` clears and then refills with one
 placement per grid cell, sweeping columns x and, inside each, rows z.
 */
module CityBuilding {
  import opened CityLayout

  /** How a call to GenerateCity ends: normally, or with the exception thrown
      by the road test's remainder when the road frequency is 0. */
  datatype Outcome = Completed | DivideByZero

  class CityGenerator {
    var cityWidth: int32
    var cityLength: int32
    var blockSpacing: real
    var minBuildingHeight: int32
    var maxBuildingHeight: int32
    var roadFrequency: int32

    /** The children of the container, in the order they were spawned. */
    var children: seq<Placement>

    /** The inspector defaults; nothing has been spawned yet. */
    constructor ()
      ensures cityWidth == 10 && cityLength == 10 && blockSpacing == 1.2
      ensures minBuildingHeight == 1 && maxBuildingHeight == 5 && roadFrequency == 4
      ensures children == []
    {
      cityWidth, cityLength, blockSpacing := 10, 10, 1.2;
      minBuildingHeight, maxBuildingHeight := 1, 5;
      roadFrequency := 4;
      children := [];
    }

    /** Destroys every child of the container, one at a time. */
    method DestroyChildren() returns (destroyed: nat)
      modifies this`children
      ensures destroyed == |old(children)| && children == []
    {
      destroyed := 0;
      while children != []
        invariant destroyed + |children| == |old(children)|
        decreases |children|
      {
        children := children[1..];
        destroyed := destroyed + 1;
      }
    }

    /** Spawns the object for cell (x, z), the next cell of the sweep: a road
        when the road test holds, otherwise a building whose height is the
        generator's next value in [minBuildingHeight, maxBuildingHeight + 1).
        The road test throws when the road frequency is 0, and then nothing is
        spawned. Returns how many values have been drawn. */
    method PlaceCell(x: nat, z: nat, ghost length: int, rng: (int32, int32, nat) -> int32, drawn: nat)
      returns (outcome: Outcome, drawnAfter: nat)
      requires z < length
      requires roadFrequency != 0 ==>
        children == SweepUpTo(x, z, length, roadFrequency as int, DrawStream(rng, minBuildingHeight, UpperExclusive(maxBuildingHeight)))
      requires drawn == BuildingCount(children)
      modifies this`children
      ensures outcome == DivideByZero <==> roadFrequency == 0
      ensures outcome == DivideByZero ==> children == old(children)
      ensures outcome == Completed ==>
        children == SweepUpTo(x, z + 1, length, roadFrequency as int, DrawStream(rng, minBuildingHeight, UpperExclusive(maxBuildingHeight)))
      ensures drawnAfter == BuildingCount(children)
    {
      drawnAfter := drawn;
      if roadFrequency == 0 {
        return DivideByZero, drawn;
      }
      var placed: Placement;
      if IsRoad(x, z, roadFrequency as int) {
        placed := Road(x, z);
      } else {
        var height := rng(minBuildingHeight, UpperExclusive(maxBuildingHeight), drawn);
        assert height == DrawStream(rng, minBuildingHeight, UpperExclusive(maxBuildingHeight))(drawn);
        drawnAfter := drawn + 1;
        placed := Building(x, z, height as int);
      }
      BuildingCountAppend(children, placed);
      children := children + [placed];
      outcome := Completed;
    }

    /** Spawns the objects of column x, rows 0 to cityLength - 1, stopping at
        the first cell whose road test throws. */
    method PlaceColumn(x: nat, rng: (int32, int32, nat) -> int32, drawn: nat) returns (outcome: Outcome, drawnAfter: nat)
      requires cityLength > 0 && roadFrequency != 0 ==>
        children == SweepUpTo(x, 0, cityLength as int, roadFrequency as int, DrawStream(rng, minBuildingHeight, UpperExclusive(maxBuildingHeight)))
      requires drawn == BuildingCount(children)
      modifies this`children
      ensures outcome == DivideByZero <==> cityLength > 0 && roadFrequency == 0
      ensures outcome == DivideByZero || cityLength <= 0 ==> children == old(children)
      ensures outcome == Completed && cityLength > 0 ==>
        children == SweepUpTo(x + 1, 0, cityLength as int, roadFrequency as int, DrawStream(rng, minBuildingHeight, UpperExclusive(maxBuildingHeight)))
      ensures drawnAfter == BuildingCount(children)
    {
      var length := cityLength as int;
      ghost var draw := DrawStream(rng, minBuildingHeight, UpperExclusive(maxBuildingHeight));
      drawnAfter := drawn;
      var z := 0;
      while z < length
        invariant 0 <= z && (z == 0 || z <= length)
        invariant roadFrequency != 0 && length > 0 ==> children == SweepUpTo(x, z, length, roadFrequency as int, draw)
        invariant roadFrequency == 0 || length <= 0 ==> z == 0 && children == old(children)
        invariant drawnAfter == BuildingCount(children)
      {
        outcome, drawnAfter := PlaceCell(x, z, length, rng, drawnAfter);
        if outcome == DivideByZero {
          return;
        }
        z := z + 1;
      }
      outcome := Completed;
    }

    /** Regenerates the city: destroys every child, then sweeps the grid
        column by column. `rng(lo, hiExclusive, i)` is the value the random
        generator returns on its i-th call during this regeneration, the call
        made for the i-th building, always with the bounds
        (minBuildingHeight, maxBuildingHeight + 1). Whatever was spawned
        before is gone afterwards, and when the generator keeps its contract
        and max + 1 does not wrap, every building's height lies within the
        configured range. */
    method GenerateCity(rng: (int32, int32, nat) -> int32) returns (outcome: Outcome)
      modifies this`children
      ensures outcome == DivideByZero <==> cityWidth > 0 && cityLength > 0 && roadFrequency == 0
      ensures outcome == Completed ==>
        children == Sweep(cityWidth as int, cityLength as int, roadFrequency as int,
                          DrawStream(rng, minBuildingHeight, UpperExclusive(maxBuildingHeight)))
      ensures outcome == DivideByZero ==> children == []
      ensures outcome == Completed && minBuildingHeight <= maxBuildingHeight < Int32Max && RangeContract(rng) ==>
        forall k :: 0 <= k < |children| && children[k].Building? ==>
          minBuildingHeight as int <= children[k].height <= maxBuildingHeight as int
    {
      var _ := DestroyChildren();
      ghost var draw := DrawStream(rng, minBuildingHeight, UpperExclusive(maxBuildingHeight));
      var width := cityWidth as int;
      var drawn: nat := 0;
      var x := 0;
      while x < width
        invariant 0 <= x && (x == 0 || x <= width)
        invariant cityLength > 0 && roadFrequency != 0 ==> children == SweepUpTo(x, 0, cityLength as int, roadFrequency as int, draw)
        invariant cityLength <= 0 || roadFrequency == 0 ==> children == []
        invariant roadFrequency == 0 && cityLength > 0 ==> x == 0
        invariant drawn == BuildingCount(children)
      {
        outcome, drawn := PlaceColumn(x, rng, drawn);
        if outcome == DivideByZero {
          return;
        }
        x := x + 1;
      }
      if cityLength > 0 && roadFrequency != 0 && width > 0 {
        SweepIsNested(width, cityLength as int, roadFrequency as int, draw);
      }
      if minBuildingHeight <= maxBuildingHeight < Int32Max && RangeContract(rng) {
        RangeContractStream(rng, minBuildingHeight, UpperExclusive(maxBuildingHeight));
        HeightsWithinBounds(width, cityLength as int, roadFrequency as int, draw, minBuildingHeight, maxBuildingHeight);
      }
      outcome := Completed;
    }
  }
}

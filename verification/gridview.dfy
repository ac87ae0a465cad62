/**
 * The Rust runtime view of the board (`GridView`): a map from droplet ids to
 * droplets, the action interpreter `execute`, and the pairwise collision queries.
 * Panicking `assert!`/`expect` calls are the preconditions of the interpreter.
 */
module Gridview {
  import opened Wrappers
  import opened Geometry

  datatype DropletId = DropletId(id: nat, processId: nat)

  /** A droplet on the grid; volumes are exact reals here. */
  datatype Droplet = Droplet(
    id: DropletId,
    location: Location,
    dimensions: Location,
    volume: real,
    destination: Option<Location>,
    collisionGroup: nat)

  /** `Droplet::new`: no destination, and a collision group of its own (`id.id`). */
  function NewDroplet(id: DropletId, volume: real, location: Location, dimensions: Location): (d: Droplet)
    ensures d.id == id && d.location == location && d.dimensions == dimensions
    ensures d.volume == volume && d.destination == None
  {
    Droplet(id, location, dimensions, volume, None, id.id)
  }

  const Unit := Location(1, 1)

  /** The planner's instructions to the runtime. */
  datatype Action =
    | AddDroplet(id: DropletId, location: Location, dimensions: Location, volume: real)
    | RemoveDroplet(id: DropletId)
    | Mix(in0: DropletId, in1: DropletId, out: DropletId)
    | Split(inp: DropletId, out0: DropletId, out1: DropletId)
    | UpdateDroplet(oldId: DropletId, newId: DropletId)
    | MoveDroplet(id: DropletId, location: Location)
    | Tick
    | Ping

  type Droplets = map<DropletId, Droplet>

  /** The neighbourhood of a droplet placed at `at1` meets the footprint of one at `at2`. */
  predicate Overlap(grid: Grid, at1: Location, dims1: Location, at2: Location, dims2: Location)
  {
    NeighborsDimensions(grid, at1, dims1) * GetLocations(at2, dims2) != {}
  }

  /** `(a, b)` is a pair that `get_collision` may report. */
  predicate CollidingPair(grid: Grid, ds: Droplets, a: DropletId, b: DropletId)
  {
    a in ds && b in ds && a != b &&
    ds[a].collisionGroup != ds[b].collisionGroup &&
    Overlap(grid, ds[a].location, ds[a].dimensions, ds[b].location, ds[b].dimensions)
  }

  predicate HasCollision(grid: Grid, ds: Droplets)
  {
    exists a, b | a in ds && b in ds :: CollidingPair(grid, ds, a, b)
  }

  /** `(a, b)` is a pair that `get_destination_collision` may report. */
  predicate DestinationCollidingPair(grid: Grid, ds: Droplets, a: DropletId, b: DropletId)
  {
    a in ds && b in ds && a != b &&
    ds[a].collisionGroup != ds[b].collisionGroup &&
    ds[a].destination.Some? && ds[b].destination.Some? &&
    Overlap(grid, ds[a].destination.value, ds[a].dimensions,
            ds[b].destination.value, ds[b].dimensions)
  }

  /** The `Mix` arm: remove both inputs, insert their union at the first one's place. */
  function ApplyMix(ds: Droplets, in0: DropletId, in1: DropletId, out: DropletId): Option<Droplets>
  {
    if in0 !in ds then None
    else
      var rest0 := ds - {in0};
      if in1 !in rest0 then None
      else
        var d0, d1 := ds[in0], rest0[in1];
        var rest1 := rest0 - {in1};
        if d0.location != d1.location || out in rest1 then None
        else Some(rest1[out := NewDroplet(out, d0.volume + d1.volume, d0.location, Unit)])
  }

  /** The `Split` arm: remove the input, insert two halves at its place. */
  function ApplySplit(ds: Droplets, inp: DropletId, out0: DropletId, out1: DropletId): Option<Droplets>
  {
    if inp !in ds then None
    else
      var d := ds[inp];
      var rest := ds - {inp};
      if out0 in rest then None
      else
        var with0 := rest[out0 := NewDroplet(out0, d.volume / 2.0, d.location, Unit)];
        if out1 in with0 then None
        else Some(with0[out1 := NewDroplet(out1, d.volume / 2.0, d.location, Unit)])
  }

  /**
   * What `execute` does to the droplet map; `None` when it panics.
   * The split volume error is that of the default options (no error).
   */
  function Apply(grid: Grid, ds: Droplets, action: Action): Option<Droplets>
  {
    match action
    case AddDroplet(id, location, dimensions, volume) =>
      if id in ds then None else Some(ds[id := NewDroplet(id, volume, location, dimensions)])
    case RemoveDroplet(id) =>
      if id !in ds then None else Some(ds - {id})
    case Mix(in0, in1, out) => ApplyMix(ds, in0, in1, out)
    case Split(inp, out0, out1) => ApplySplit(ds, inp, out0, out1)
    case UpdateDroplet(oldId, newId) =>
      if oldId !in ds then None
      else
        var d := ds[oldId];
        var rest := ds - {oldId};
        if newId in rest then None else Some(rest[newId := d.(id := newId)])
    case MoveDroplet(id, location) =>
      if id !in ds || DistanceTo(ds[id].location, location) > 1 then None
      else Some(ds[id := ds[id].(location := location)])
    case Tick =>
      if HasCollision(grid, ds) then None else Some(ds)
    case Ping =>
      Some(ds)
  }

  class GridView {
    const grid: Grid
    var droplets: Droplets

    /** Every droplet is stored under its own id. */
    ghost predicate Valid()
      reads this
    {
      forall k | k in droplets :: droplets[k].id == k
    }

    constructor (grid: Grid)
      ensures Valid() && this.grid == grid && droplets == map[]
    {
      this.grid := grid;
      droplets := map[];
    }

    /** Returns some colliding pair, if any. */
    method GetCollision() returns (r: Option<(DropletId, DropletId)>)
      ensures r.Some? ==> CollidingPair(grid, droplets, r.value.0, r.value.1)
      ensures r.None? <==> !HasCollision(grid, droplets)
    {
      var outer := droplets.Keys;
      while outer != {}
        invariant outer <= droplets.Keys
        invariant forall a, b | a in droplets.Keys - outer :: !CollidingPair(grid, droplets, a, b)
        decreases outer
      {
        var id1 :| id1 in outer;
        var inner := droplets.Keys;
        while inner != {}
          invariant inner <= droplets.Keys
          invariant forall b | b in droplets.Keys - inner :: !CollidingPair(grid, droplets, id1, b)
          decreases inner
        {
          var id2 :| id2 in inner;
          var d1, d2 := droplets[id1], droplets[id2];
          if id1 != id2 && d1.collisionGroup != d2.collisionGroup {
            if Overlap(grid, d1.location, d1.dimensions, d2.location, d2.dimensions) {
              return Some((id1, id2));
            }
          }
          inner := inner - {id2};
        }
        outer := outer - {id1};
      }
      return None;
    }

    /** Like `GetCollision`, on destinations; droplets without one are skipped. */
    method GetDestinationCollision() returns (r: Option<(DropletId, DropletId)>)
      ensures r.Some? ==> DestinationCollidingPair(grid, droplets, r.value.0, r.value.1)
      ensures r.None? <==>
        !exists a, b | a in droplets && b in droplets :: DestinationCollidingPair(grid, droplets, a, b)
    {
      var outer := droplets.Keys;
      while outer != {}
        invariant outer <= droplets.Keys
        invariant forall a, b | a in droplets.Keys - outer :: !DestinationCollidingPair(grid, droplets, a, b)
        decreases outer
      {
        var id1 :| id1 in outer;
        var inner := droplets.Keys;
        while inner != {}
          invariant inner <= droplets.Keys
          invariant forall b | b in droplets.Keys - inner :: !DestinationCollidingPair(grid, droplets, id1, b)
          decreases inner
        {
          var id2 :| id2 in inner;
          var d1, d2 := droplets[id1], droplets[id2];
          if id1 != id2 && d1.collisionGroup != d2.collisionGroup
             && d1.destination.Some? && d2.destination.Some?
          {
            var dest1, dest2 := d1.destination.value, d2.destination.value;
            if Overlap(grid, dest1, d1.dimensions, dest2, d2.dimensions) {
              return Some((id1, id2));
            }
          }
          inner := inner - {id2};
        }
        outer := outer - {id1};
      }
      return None;
    }

    method Insert(droplet: Droplet)
      requires droplet.id !in droplets
      modifies this
      ensures droplets == old(droplets)[droplet.id := droplet]
    {
      droplets := droplets[droplet.id := droplet];
    }

    method Remove(id: DropletId) returns (d: Droplet)
      requires id in droplets
      modifies this
      ensures d == old(droplets)[id] && droplets == old(droplets) - {id}
    {
      d := droplets[id];
      droplets := droplets - {id};
    }

    /** The droplet stored under `id`, which the caller then updates in place. */
    function GetMut(id: DropletId): (d: Droplet)
      requires Valid() && id in droplets
      reads this
      ensures d.id == id && d in droplets.Values
    {
      droplets[id]
    }

    method Execute(action: Action)
      requires Valid() && Apply(grid, droplets, action).Some?
      modifies this
      ensures Valid()
      ensures droplets == Apply(grid, old(droplets), action).value
    {
      match action {
        case AddDroplet(id, location, dimensions, volume) =>
          Insert(NewDroplet(id, volume, location, dimensions));
        case RemoveDroplet(id) =>
          var _ := Remove(id);
        case Mix(in0, in1, out) =>
          var d0 := Remove(in0);
          var d1 := Remove(in1);
          var vol := d0.volume + d1.volume;
          Insert(NewDroplet(out, vol, d0.location, Unit));
        case Split(inp, out0, out1) =>
          var d := Remove(inp);
          var vol := d.volume / 2.0;
          Insert(NewDroplet(out0, vol, d.location, Unit));
          Insert(NewDroplet(out1, vol, d.location, Unit));
        case UpdateDroplet(oldId, newId) =>
          var d := Remove(oldId);
          d := d.(id := newId);
          Insert(d);
        case MoveDroplet(id, location) =>
          var droplet := GetMut(id);
          droplets := droplets[id := droplet.(location := location)];
        case Tick =>
          var collision := GetCollision();
          if collision.Some? {
            assert false;
          }
        case Ping =>
      }
    }
  }

  /** Dropping a present key shrinks the map by one. */
  lemma RemoveOne(ds: Droplets, k: DropletId)
    requires k in ds
    ensures (ds - {k}).Keys == ds.Keys - {k} && |ds - {k}| == |ds| - 1
  {
    assert (ds - {k}).Keys == ds.Keys - {k};
  }

  /** `RemoveDroplet` succeeds iff the id is present and drops exactly that droplet. */
  lemma RemoveDropsOne(grid: Grid, ds: Droplets, id: DropletId)
    ensures Apply(grid, ds, RemoveDroplet(id)).Some? <==> id in ds
    ensures id in ds ==>
      var r := Apply(grid, ds, RemoveDroplet(id)).value;
      r.Keys == ds.Keys - {id} && |r| == |ds| - 1 &&
      forall k | k in r :: r[k] == ds[k]
  {
  }

  /** `AddDroplet` needs a fresh id and adds one droplet built by `Droplet::new`. */
  lemma AddAddsOne(grid: Grid, ds: Droplets, id: DropletId, location: Location, dimensions: Location, volume: real)
    ensures Apply(grid, ds, AddDroplet(id, location, dimensions, volume)).Some? <==> id !in ds
    ensures id !in ds ==>
      var r := Apply(grid, ds, AddDroplet(id, location, dimensions, volume)).value;
      r.Keys == ds.Keys + {id} && |r| == |ds| + 1 &&
      r[id].location == location && r[id].dimensions == dimensions && r[id].volume == volume &&
      forall k | k in ds :: r[k] == ds[k]
  {
  }

  /**
   * `Mix` consumes two distinct co-located droplets and yields one 1x1 droplet at
   * their location holding their joint volume; the count drops by one.
   */
  lemma MixMergesTwo(grid: Grid, ds: Droplets, in0: DropletId, in1: DropletId, out: DropletId)
    ensures Apply(grid, ds, Mix(in0, in1, out)).Some? <==>
      in0 in ds && in1 in ds && in0 != in1 && ds[in0].location == ds[in1].location &&
      (out in ds ==> out == in0 || out == in1)
    ensures Apply(grid, ds, Mix(in0, in1, out)).Some? ==>
      var r := Apply(grid, ds, Mix(in0, in1, out)).value;
      r.Keys == ds.Keys - {in0, in1} + {out} && |r| == |ds| - 1 &&
      r[out].location == ds[in0].location && r[out].dimensions == Unit &&
      r[out].volume == ds[in0].volume + ds[in1].volume &&
      forall k | k in r && k != out :: r[k] == ds[k]
  {
    if Apply(grid, ds, Mix(in0, in1, out)).Some? {
      var r := Apply(grid, ds, Mix(in0, in1, out)).value;
      RemoveOne(ds, in0);
      RemoveOne(ds - {in0}, in1);
      assert r.Keys == ds.Keys - {in0, in1} + {out};
      assert |r| == |ds| - 1;
      assert r[out].volume == ds[in0].volume + ds[in1].volume;
    }
  }

  /**
   * `Split` consumes one droplet and yields two distinct 1x1 droplets at its
   * location, each with half its volume; the count rises by one.
   */
  lemma SplitMakesTwo(grid: Grid, ds: Droplets, inp: DropletId, out0: DropletId, out1: DropletId)
    ensures Apply(grid, ds, Split(inp, out0, out1)).Some? <==>
      inp in ds && out0 != out1 &&
      (out0 in ds ==> out0 == inp) && (out1 in ds ==> out1 == inp)
    ensures Apply(grid, ds, Split(inp, out0, out1)).Some? ==>
      var r := Apply(grid, ds, Split(inp, out0, out1)).value;
      r.Keys == ds.Keys - {inp} + {out0, out1} && |r| == |ds| + 1 &&
      r[out0].location == ds[inp].location && r[out1].location == ds[inp].location &&
      r[out0].dimensions == Unit && r[out1].dimensions == Unit &&
      r[out0].volume == ds[inp].volume / 2.0 && r[out1].volume == ds[inp].volume / 2.0 &&
      r[out0].volume + r[out1].volume == ds[inp].volume &&
      forall k | k in r && k != out0 && k != out1 :: r[k] == ds[k]
  {
  }

  /** `UpdateDroplet` re-keys one droplet; every field but its id is kept. */
  lemma UpdateRekeys(grid: Grid, ds: Droplets, oldId: DropletId, newId: DropletId)
    ensures Apply(grid, ds, UpdateDroplet(oldId, newId)).Some? <==>
      oldId in ds && (newId in ds ==> newId == oldId)
    ensures Apply(grid, ds, UpdateDroplet(oldId, newId)).Some? ==>
      var r := Apply(grid, ds, UpdateDroplet(oldId, newId)).value;
      r.Keys == ds.Keys - {oldId} + {newId} && |r| == |ds| &&
      r[newId].id == newId &&
      r[newId].location == ds[oldId].location &&
      r[newId].dimensions == ds[oldId].dimensions &&
      r[newId].volume == ds[oldId].volume &&
      r[newId].destination == ds[oldId].destination &&
      r[newId].collisionGroup == ds[oldId].collisionGroup &&
      forall k | k in r && k != newId :: r[k] == ds[k]
  {
  }

  /** `MoveDroplet` moves at most one step (Manhattan) and changes nothing else. */
  lemma MoveChangesLocation(grid: Grid, ds: Droplets, id: DropletId, location: Location)
    ensures Apply(grid, ds, MoveDroplet(id, location)).Some? <==>
      id in ds && DistanceTo(ds[id].location, location) <= 1
    ensures Apply(grid, ds, MoveDroplet(id, location)).Some? ==>
      var r := Apply(grid, ds, MoveDroplet(id, location)).value;
      r.Keys == ds.Keys && r[id] == ds[id].(location := location) &&
      forall k | k in r && k != id :: r[k] == ds[k]
  {
  }

  /** `Tick` panics iff some pair collides; otherwise, like `Ping`, it changes nothing. */
  lemma TickChecksCollisions(grid: Grid, ds: Droplets)
    ensures Apply(grid, ds, Tick).Some? <==> !HasCollision(grid, ds)
    ensures Apply(grid, ds, Tick).Some? ==> Apply(grid, ds, Tick).value == ds
    ensures Apply(grid, ds, Ping) == Some(ds)
  {
  }

  /** Every successful action keeps each droplet stored under its own id. */
  lemma ApplyKeepsIds(grid: Grid, ds: Droplets, action: Action)
    requires forall k | k in ds :: ds[k].id == k
    requires Apply(grid, ds, action).Some?
    ensures var r := Apply(grid, ds, action).value; forall k | k in r :: r[k].id == k
  {
  }
}

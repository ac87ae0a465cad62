/**
 * The Python device model: droplets compared by identity, the architecture
 * that holds the set of droplets on the board and checks it for collisions,
 * and the `Mix` and `Split` commands that walk droplets over their shapes.
 * `wait` (a rendezvous with a renderer) does nothing here.
 */
module Arch {
  import opened Geometry

  /** A droplet: hashed and compared by identity, its fields reassigned in place. */
  class Droplet {
    var info: string
    var locations: set<Location>
    var valid: bool

    /** `Droplet(info, locations)`; a new droplet is valid. */
    constructor (info: string, locations: set<Location>)
      ensures this.info == info && this.locations == locations && valid
    {
      this.info := info;
      this.locations := locations;
      valid := true;
    }

    /** `copy`: a fresh valid droplet with the same info and locations. */
    method Copy() returns (c: Droplet)
      ensures fresh(c) && c.info == info && c.locations == locations && c.valid
    {
      c := new Droplet(info, locations);
    }

    /** `split`: two fresh copies; the original is no longer valid. */
    method Split() returns (a: Droplet, b: Droplet)
      requires valid
      modifies this
      ensures fresh(a) && fresh(b) && a != b
      ensures a.info == info && a.locations == locations && a.valid
      ensures b.info == info && b.locations == locations && b.valid
      ensures !valid && info == old(info) && locations == old(locations)
    {
      a := Copy();
      b := Copy();
      valid := false;
    }

    /**
     * `mix`: both inputs become invalid, and the result is a fresh valid
     * droplet covering the union of their locations.
     */
    method Mix(other: Droplet) returns (r: Droplet)
      requires valid && other.valid
      modifies this, other
      ensures !valid && !other.valid
      ensures info == old(info) && locations == old(locations)
      ensures other.info == old(other.info) && other.locations == old(other.locations)
      ensures fresh(r) && r.valid
      ensures r.info == MixedInfo(old(info), old(other.info))
      ensures r.locations == old(locations) + old(other.locations)
    {
      valid := false;
      other.valid := false;
      var mixed := MixedInfo(info, other.info);
      r := new Droplet(mixed, locations + other.locations);
    }
  }

  /** The info of a mixed droplet, `"(a, b)"`. */
  function MixedInfo(a: string, b: string): string
  {
    "(" + a + ", " + b + ")"
  }

  /** Two cells collide when they are equal or adjacent, diagonals included. */
  predicate Near(a: Location, b: Location)
  {
    Abs(a.y - b.y) <= 1 && Abs(a.x - b.x) <= 1
  }

  /** The collision rule is Chebyshev distance at most one. */
  lemma NearIsChebyshev(a: Location, b: Location)
    ensures Near(a, b) <==> Chebyshev(a, b) <= 1
  {
  }

  /** Some cell of `ls` collides with some cell of `ms`. */
  ghost predicate Touches(ls: set<Location>, ms: set<Location>)
  {
    exists l, m | l in ls && m in ms :: Near(l, m)
  }

  /** Every droplet in `ds` occupies exactly one cell, as the collision check unpacks. */
  ghost predicate Singletons(ds: set<Droplet>)
    reads ds
  {
    forall d | d in ds :: |d.locations| == 1
  }

  /** Two distinct droplets of `ds` collide. */
  ghost predicate Colliding(ds: set<Droplet>)
    reads ds
  {
    exists a, b | a in ds && b in ds && a != b :: Touches(a.locations, b.locations)
  }

  /** `ds` with one more droplet on `locs` would collide. */
  ghost predicate CollidingWith(ds: set<Droplet>, locs: set<Location>)
    reads ds
  {
    Colliding(ds) || exists e | e in ds :: Touches(locs, e.locations) || Touches(e.locations, locs)
  }

  /** Two distinct droplets of `ds` on the same single cell collide. */
  lemma SameCellCollides(ds: set<Droplet>, a: Droplet, b: Droplet)
    requires a in ds && b in ds && a != b && a.locations == b.locations && |a.locations| == 1
    ensures Colliding(ds)
  {
    var l :| l in a.locations;
    assert Near(l, l);
    assert Touches(a.locations, b.locations);
  }

  /** A set of exactly one element is that element's singleton. */
  lemma Single(s: set<Location>, l: Location)
    requires |s| == 1 && l in s
    ensures s == {l}
  {
    assert |s - {l}| == 0;
  }

  /** The least element of a non-empty sequence. */
  function MinOf(xs: seq<int>): (m: int)
    requires |xs| > 0
    ensures m in xs && forall i | 0 <= i < |xs| :: m <= xs[i]
  {
    if |xs| == 1 then xs[0]
    else
      var r := MinOf(xs[1..]);
      if xs[0] <= r then xs[0] else r
  }

  /** The greatest element of a non-empty sequence. */
  function MaxOf(xs: seq<int>): (m: int)
    requires |xs| > 0
    ensures m in xs && forall i | 0 <= i < |xs| :: xs[i] <= m
  {
    if |xs| == 1 then xs[0]
    else
      var r := MaxOf(xs[1..]);
      if xs[0] >= r then xs[0] else r
  }

  function Ys(nodes: seq<Location>): seq<int>
  {
    seq(|nodes|, i requires 0 <= i < |nodes| => nodes[i].y)
  }

  function Xs(nodes: seq<Location>): seq<int>
  {
    seq(|nodes|, i requires 0 <= i < |nodes| => nodes[i].x)
  }

  /**
   * A board: its graph's nodes, in iteration order, the bounding box they
   * span, and the set of droplets on it.
   */
  class Architecture {
    const nodes: seq<Location>
    const yMin: int
    const yMax: int
    const xMin: int
    const xMax: int
    const height: int
    const width: int
    var droplets: set<Droplet>

    /** The constructor: the bounds of the node coordinates, and no droplets. */
    constructor (nodes: seq<Location>)
      requires |nodes| > 0
      ensures this.nodes == nodes && droplets == {}
      ensures forall i | 0 <= i < |nodes| :: yMin <= nodes[i].y <= yMax && xMin <= nodes[i].x <= xMax
      ensures (exists i | 0 <= i < |nodes| :: nodes[i].y == yMin) && (exists i | 0 <= i < |nodes| :: nodes[i].y == yMax)
      ensures (exists i | 0 <= i < |nodes| :: nodes[i].x == xMin) && (exists i | 0 <= i < |nodes| :: nodes[i].x == xMax)
      ensures height == yMax - yMin + 1 && width == xMax - xMin + 1
      ensures height >= 1 && width >= 1
    {
      var ys, xs := Ys(nodes), Xs(nodes);
      this.nodes := nodes;
      yMin, yMax := MinOf(ys), MaxOf(ys);
      xMin, xMax := MinOf(xs), MaxOf(xs);
      height := MaxOf(ys) - MinOf(ys) + 1;
      width := MaxOf(xs) - MinOf(xs) + 1;
      droplets := {};
      new;
      assert MinOf(ys) <= ys[0] <= MaxOf(ys);
      assert MinOf(xs) <= xs[0] <= MaxOf(xs);
      assert forall i | 0 <= i < |nodes| :: ys[i] == nodes[i].y && xs[i] == nodes[i].x;
    }

    /** `get_droplet`: a droplet covering `location`, or `null` when there is none. */
    method GetDroplet(location: Location) returns (r: Droplet?)
      ensures r != null ==> r in droplets && location in r.locations
      ensures r == null ==> forall d | d in droplets :: location !in d.locations
    {
      var todo := droplets;
      while todo != {}
        invariant todo <= droplets
        invariant forall d | d in droplets - todo :: location !in d.locations
        decreases todo
      {
        var d :| d in todo;
        if location in d.locations {
          return d;
        }
        todo := todo - {d};
      }
      return null;
    }

    /**
     * `check_collisions`: `true` (a `CollisionError`) iff two distinct
     * droplets sit on equal or adjacent cells.
     */
    method CheckCollisions() returns (collision: bool)
      requires Singletons(droplets)
      ensures collision <==> Colliding(droplets)
    {
      var outer := droplets;
      while outer != {}
        invariant outer <= droplets
        invariant forall a, b | a in droplets - outer && b in droplets && a != b :: !Touches(a.locations, b.locations)
        decreases outer
      {
        var droplet :| droplet in outer;
        var location :| location in droplet.locations;
        Single(droplet.locations, location);
        var inner := droplets;
        while inner != {}
          invariant inner <= droplets
          invariant forall b | b in droplets - inner && b != droplet :: !Touches(droplet.locations, b.locations)
          decreases inner
        {
          var other :| other in inner;
          if other != droplet {
            var otherLocation :| otherLocation in other.locations;
            Single(other.locations, otherLocation);
            if Near(location, otherLocation) {
              assert Touches(droplet.locations, other.locations);
              return true;
            }
          }
          inner := inner - {other};
        }
        outer := outer - {droplet};
      }
      return false;
    }

    /**
     * `add_droplet`: the droplet joins the set, and stays there even when
     * the collision check that follows raises (`collision`).
     */
    method AddDroplet(d: Droplet) returns (collision: bool)
      requires d !in droplets && Singletons(droplets + {d})
      modifies this
      ensures droplets == old(droplets) + {d}
      ensures collision <==> Colliding(droplets)
    {
      droplets := droplets + {d};
      collision := CheckCollisions();
    }

    /** `remove_droplet`: exactly that droplet leaves the set. */
    method RemoveDroplet(d: Droplet)
      requires d in droplets
      modifies this
      ensures droplets == old(droplets) - {d}
    {
      droplets := droplets - {d};
    }
  }

  /** Adding a droplet on `locs` to `ds` collides iff `ds` or the new droplet does. */
  lemma AddedColliding(ds: set<Droplet>, d: Droplet)
    requires d !in ds
    ensures Colliding(ds + {d}) <==> CollidingWith(ds, d.locations)
  {
    if Colliding(ds + {d}) {
      var a, b :| a in ds + {d} && b in ds + {d} && a != b && Touches(a.locations, b.locations);
      if a == d {
        assert Touches(d.locations, b.locations);
      } else if b == d {
        assert Touches(a.locations, d.locations);
      } else {
        assert Colliding(ds);
      }
    }
    if CollidingWith(ds, d.locations) {
      if Colliding(ds) {
        var a, b :| a in ds && b in ds && a != b && Touches(a.locations, b.locations);
        assert a in ds + {d} && b in ds + {d};
      } else {
        var e :| e in ds && (Touches(d.locations, e.locations) || Touches(e.locations, d.locations));
        assert e in ds + {d} && e != d;
        if Touches(d.locations, e.locations) {
          assert Touches(d.locations, e.locations);
        }
      }
    }
  }

  /** `puddle.util.pairs`: the consecutive pairs of a sequence. */
  function Pairs<T>(s: seq<T>): (r: seq<(T, T)>)
    ensures |r| == if |s| == 0 then 0 else |s| - 1
    ensures forall i | 0 <= i < |r| :: r[i] == (s[i], s[i + 1])
  {
    if |s| < 2 then [] else [(s[0], s[1])] + Pairs(s[1..])
  }

  /** The closed loop `Mix` drives its droplet around, in the command's coordinates. */
  const MixLoop: seq<Location> :=
    [Location(0, 0), Location(1, 0), Location(1, 1), Location(1, 2), Location(0, 2), Location(0, 1), Location(0, 0)]

  /** `n_mix_loops`. */
  const MixLoops: nat := 1

  /** The two arms of `Split`, from the centre outwards. */
  const SplitArm1: seq<Location> := [Location(0, 2), Location(0, 1), Location(0, 0)]
  const SplitArm2: seq<Location> := [Location(0, 2), Location(0, 3), Location(0, 4)]

  /** The board locations `mapping` gives to the command locations `s`. */
  function Mapped(mapping: map<Location, Location>, s: seq<Location>): (r: seq<Location>)
    requires forall l | l in s :: l in mapping
    ensures |r| == |s| && forall i | 0 <= i < |s| :: r[i] == mapping[s[i]]
  {
    seq(|s|, i requires 0 <= i < |s| => mapping[s[i]])
  }

  /** `s` repeated `n` times. */
  function Repeat<T>(s: seq<T>, n: nat): seq<T>
  {
    if n == 0 then [] else Repeat(s, n - 1) + s
  }

  /** `n` repetitions of `s` are `n` times as long. */
  lemma {:induction false} RepeatLength<T>(s: seq<T>, n: nat)
    ensures |Repeat(s, n)| == n * |s|
  {
    if n > 0 {
      RepeatLength(s, n - 1);
    }
  }

  /** The targets of a sequence of edges. */
  function Targets(edges: seq<(Location, Location)>): (r: seq<Location>)
    ensures |r| == |edges| && forall i | 0 <= i < |edges| :: r[i] == edges[i].1
  {
    seq(|edges|, i requires 0 <= i < |edges| => edges[i].1)
  }

  /**
   * The mapped mix loop has six edges; their targets are the mapped loop
   * after its first cell, and the last one is the mapped start `(0, 0)`.
   */
  lemma MixEdges(mapping: map<Location, Location>)
    requires forall l | l in MixLoop :: l in mapping
    ensures Targets(Pairs(Mapped(mapping, MixLoop))) == Mapped(mapping, MixLoop)[1..]
    ensures |Pairs(Mapped(mapping, MixLoop))| == 6
    ensures Pairs(Mapped(mapping, MixLoop))[5].1 == mapping[Location(0, 0)]
  {
  }

  /**
   * The walk of `Mix.run`: `loops` times round `edges`, moving `d` onto each
   * edge's target in turn. `visited` is the sequence of cells it is moved to.
   */
  method WalkLoop(d: Droplet, edges: seq<(Location, Location)>, loops: nat) returns (ghost visited: seq<Location>)
    modifies d
    ensures d.info == old(d.info) && d.valid == old(d.valid)
    ensures visited == Repeat(Targets(edges), loops)
    ensures loops > 0 && |edges| > 0 ==> d.locations == {edges[|edges| - 1].1}
    ensures loops == 0 || |edges| == 0 ==> d.locations == old(d.locations)
  {
    visited := [];
    for r := 0 to loops
      invariant d.info == old(d.info) && d.valid == old(d.valid)
      invariant visited == Repeat(Targets(edges), r)
      invariant r > 0 && |edges| > 0 ==> d.locations == {edges[|edges| - 1].1}
      invariant r == 0 || |edges| == 0 ==> d.locations == old(d.locations)
    {
      ghost var before, entry := visited, d.locations;
      for i := 0 to |edges|
        invariant d.info == old(d.info) && d.valid == old(d.valid)
        invariant visited == before + Targets(edges)[..i]
        invariant i > 0 ==> d.locations == {edges[i - 1].1}
        invariant i == 0 ==> d.locations == entry
      {
        var dst := edges[i].1;
        d.locations := {dst};
        visited := visited + [dst];
      }
      assert Targets(edges)[..|edges|] == Targets(edges);
    }
  }

  /**
   * The walk of `Split.run`: the halves move in lock step, `d1` along
   * `nodes1` and `d2` along `nodes2`, through `mapping`.
   */
  method WalkApart(d1: Droplet, d2: Droplet, mapping: map<Location, Location>, nodes1: seq<Location>,
                   nodes2: seq<Location>)
    requires d1 != d2 && |nodes1| == |nodes2| > 0
    requires forall i | 0 <= i < |nodes1| :: nodes1[i] in mapping && nodes2[i] in mapping
    modifies d1, d2
    ensures d1.info == old(d1.info) && d1.valid == old(d1.valid)
    ensures d2.info == old(d2.info) && d2.valid == old(d2.valid)
    ensures d1.locations == {mapping[nodes1[|nodes1| - 1]]} && d2.locations == {mapping[nodes2[|nodes2| - 1]]}
  {
    for i := 0 to |nodes1|
      invariant d1.info == old(d1.info) && d1.valid == old(d1.valid)
      invariant d2.info == old(d2.info) && d2.valid == old(d2.valid)
      invariant i > 0 ==> d1.locations == {mapping[nodes1[i - 1]]} && d2.locations == {mapping[nodes2[i - 1]]}
    {
      d1.locations := {mapping[nodes1[i]]};
      d2.locations := {mapping[nodes2[i]]};
    }
  }

  /** The `Mix` command on two droplets of `arch`. */
  class Mix {
    const arch: Architecture
    const droplet1: Droplet
    const droplet2: Droplet

    constructor (arch: Architecture, droplet1: Droplet, droplet2: Droplet)
      ensures this.arch == arch && this.droplet1 == droplet1 && this.droplet2 == droplet2
    {
      this.arch := arch;
      this.droplet1 := droplet1;
      this.droplet2 := droplet2;
    }

    /**
     * `run`: replace the two inputs, which must share their cells, by their
     * mix, then walk it around the mapped loop. When adding the mix raises a
     * `CollisionError` (`collided`), the walk does not happen. `visited` is
     * the sequence of cells the mix is moved to.
     */
    method Run(mapping: map<Location, Location>) returns (result: Droplet, collided: bool, ghost visited: seq<Location>)
      requires forall l | l in MixLoop :: l in mapping
      requires droplet1.locations == droplet2.locations
      requires droplet1 in arch.droplets && droplet2 in arch.droplets && droplet1 != droplet2
      requires droplet1.valid && droplet2.valid
      requires Singletons(arch.droplets)
      modifies arch, droplet1, droplet2
      ensures !droplet1.valid && !droplet2.valid
      ensures droplet1.info == old(droplet1.info) && droplet1.locations == old(droplet1.locations)
      ensures droplet2.info == old(droplet2.info) && droplet2.locations == old(droplet2.locations)
      ensures fresh(result) && result.valid
      ensures result.info == MixedInfo(old(droplet1.info), old(droplet2.info))
      ensures arch.droplets == old(arch.droplets) - {droplet1, droplet2} + {result}
      ensures collided == old(CollidingWith(arch.droplets - {droplet1, droplet2}, droplet1.locations))
      ensures collided ==> result.locations == old(droplet1.locations) && visited == []
      ensures !collided ==> visited == Repeat(Mapped(mapping, MixLoop)[1..], MixLoops)
      ensures !collided ==> result.locations == {mapping[Location(0, 0)]}
      ensures !collided ==> |visited| == 6 * MixLoops
    {
      var archLoopEdges := Pairs(Mapped(mapping, MixLoop));
      ghost var others := arch.droplets - {droplet1, droplet2};
      ghost var before := CollidingWith(others, droplet1.locations);
      assert Singletons(others);
      arch.RemoveDroplet(droplet1);
      arch.RemoveDroplet(droplet2);
      assert arch.droplets == others;
      result := droplet1.Mix(droplet2);
      assert Singletons(others) && result.locations == droplet1.locations;
      assert CollidingWith(others, result.locations) == before;
      collided := arch.AddDroplet(result);
      AddedColliding(others, result);
      visited := [];
      if collided {
        return;
      }
      MixEdges(mapping);
      visited := WalkLoop(result, archLoopEdges, MixLoops);
      RepeatLength(Mapped(mapping, MixLoop)[1..], MixLoops);
    }
  }

  /** The `Split` command on one droplet of `arch`. */
  class Split {
    const arch: Architecture
    const droplet: Droplet

    constructor (arch: Architecture, droplet: Droplet)
      ensures this.arch == arch && this.droplet == droplet
    {
      this.arch := arch;
      this.droplet := droplet;
    }

    /**
     * `run`: replace the droplet by its two halves and move them apart in
     * lock step along the mapped arms. When adding the first half raises a
     * `CollisionError` (`collided`), nothing further happens. Adding the
     * second half, on the same cell as the first, always raises, and that
     * error is caught: `secondCollided` is always set.
     */
    method Run(mapping: map<Location, Location>) returns (d1: Droplet, d2: Droplet, collided: bool,
                                                         ghost secondCollided: bool)
      requires forall i | 0 <= i < 3 :: SplitArm1[i] in mapping && SplitArm2[i] in mapping
      requires droplet in arch.droplets && droplet.valid
      requires Singletons(arch.droplets)
      modifies arch, droplet
      ensures !droplet.valid && fresh(d1) && fresh(d2) && d1 != d2
      ensures droplet.info == old(droplet.info) && droplet.locations == old(droplet.locations)
      ensures d1.info == old(droplet.info) && d2.info == old(droplet.info) && d1.valid && d2.valid
      ensures collided == old(CollidingWith(arch.droplets - {droplet}, droplet.locations))
      ensures collided ==> arch.droplets == old(arch.droplets) - {droplet} + {d1} && d1.locations == old(droplet.locations)
      ensures !collided ==> arch.droplets == old(arch.droplets) - {droplet} + {d1, d2} && secondCollided
      ensures !collided ==> d1.locations == {mapping[SplitArm1[2]]} && d2.locations == {mapping[SplitArm2[2]]}
    {
      var nodes1, nodes2 := SplitArm1, SplitArm2;
      ghost var others := arch.droplets - {droplet};
      ghost var before := CollidingWith(others, droplet.locations);
      assert Singletons(others) && |droplet.locations| == 1;
      arch.RemoveDroplet(droplet);
      d1, d2 := droplet.Split();
      assert Singletons(others) && CollidingWith(others, d1.locations) == before;
      AddedColliding(others, d1);
      collided := arch.AddDroplet(d1);
      secondCollided := false;
      if collided {
        return;
      }
      var second := arch.AddDroplet(d2);
      SameCellCollides(arch.droplets, d1, d2);
      secondCollided := second;
      WalkApart(d1, d2, mapping, nodes1, nodes2);
      assert nodes1[2] == Location(0, 0) && nodes2[2] == Location(0, 4);
    }
  }
}

/**
 * The cell-id assignment of `Architecture.from_string`: the board rows are
 * scanned in row-major order, explicit integer ids claim their cells, `a`
 * cells are queued, and the queued cells then take the smallest ids not yet
 * used, in scan order. The ids must end up exactly `0 .. n-1`.
 */
module Board {
  import opened Wrappers
  import opened Geometry

  /** One element of a board row: `_`/`None`, an integer id, `a`, or anything else. */
  datatype Elem = Gap | CellId(id: int) | Auto | Other(text: string)

  /**
   * Why a board is refused: a repeated id, an element that is none of the
   * above, or ids that are not `0 .. n-1` (the final `assert`).
   */
  datatype BoardError = DuplicateIds | Unrecognized(text: string) | NotConsecutive

  type Entry = (Location, Elem)

  /** The elements of row `y`, with their locations. */
  function RowEntries(row: seq<Elem>, y: int): (r: seq<Entry>)
    ensures |r| == |row| && forall x | 0 <= x < |row| :: r[x] == (Location(y, x), row[x])
  {
    seq(|row|, x requires 0 <= x < |row| => (Location(y, x), row[x]))
  }

  /** All elements of the board in scan order: row by row, left to right. */
  function Entries(board: seq<seq<Elem>>): seq<Entry>
    decreases |board|
  {
    if board == [] then []
    else Entries(board[..|board| - 1]) + RowEntries(board[|board| - 1], |board| - 1)
  }

  /** What the first loop has gathered: the explicitly numbered cells and the queued `a` cells. */
  datatype Scan = Scan(cells: map<int, Location>, autos: seq<Location>)

  /** The first loop's treatment of one element. */
  function ScanStep(acc: Result<Scan, BoardError>, e: Entry): Result<Scan, BoardError>
  {
    match acc
    case Err(_) => acc
    case Ok(s) =>
      match e.1
      case Gap => acc
      case CellId(id) => if id in s.cells then Err(DuplicateIds) else Ok(Scan(s.cells[id := e.0], s.autos))
      case Auto => Ok(Scan(s.cells, s.autos + [e.0]))
      case Other(text) => Err(Unrecognized(text))
  }

  /** The first loop over the entries `es`. */
  function ScanAll(es: seq<Entry>): Result<Scan, BoardError>
    decreases |es|
  {
    if es == [] then Ok(Scan(map[], [])) else ScanStep(ScanAll(es[..|es| - 1]), es[|es| - 1])
  }

  /** The integers at or above `t` still in `used`. */
  function UsedFrom(used: set<int>, t: int): set<int>
  {
    set u | u in used && u >= t
  }

  lemma UsedFromShrinks(used: set<int>, t: int)
    requires t in used
    ensures |UsedFrom(used, t + 1)| < |UsedFrom(used, t)|
  {
    assert UsedFrom(used, t) == UsedFrom(used, t + 1) + {t};
  }

  /** `while try_id in cells: try_id += 1`: the least integer at or above `t` not in `used`. */
  function NextFree(used: set<int>, t: int): (r: int)
    ensures r >= t && r !in used && forall n | t <= n < r :: n in used
    decreases |UsedFrom(used, t)|
  {
    if t !in used then t
    else
      UsedFromShrinks(used, t);
      NextFree(used, t + 1)
  }

  /** The second loop: the queued cells `autos` take ids in turn, the search resuming at `t`. */
  function Fill(cells: map<int, Location>, autos: seq<Location>, t: int): map<int, Location>
    decreases |autos|
  {
    if autos == [] then cells
    else
      var id := NextFree(cells.Keys, t);
      Fill(cells[id := autos[0]], autos[1..], id)
  }

  /** The ids `n` queued cells receive when the search starts at `t` with `used` taken. */
  function NewIds(used: set<int>, t: int, n: nat): (r: seq<int>)
    ensures |r| == n
    decreases n
  {
    if n == 0 then []
    else
      var a := NextFree(used, t);
      [a] + NewIds(used + {a}, a, n - 1)
  }

  /** The ids `0 .. n-1`. */
  function Range(n: nat): set<int>
  {
    if n == 0 then {} else Range(n - 1) + {n - 1}
  }

  lemma {:induction false} RangeMeaning(n: nat, i: int)
    ensures i in Range(n) <==> 0 <= i < n
  {
    if n > 0 {
      RangeMeaning(n - 1, i);
    }
  }

  /** The id assignment of `from_string`, as a function of the board. */
  function AssignIds(board: seq<seq<Elem>>): Result<map<int, Location>, BoardError>
  {
    match ScanAll(Entries(board))
    case Err(e) => Err(e)
    case Ok(s) =>
      var cells := Fill(s.cells, s.autos, 0);
      if cells.Keys == Range(|cells|) then Ok(cells) else Err(NotConsecutive)
  }

  // ---------------------------------------------------------------- the loops

  /** Once the scan has failed, later entries do not change the outcome. */
  lemma {:induction false} ScanErrSticks(es: seq<Entry>, pre: seq<Entry>)
    requires pre <= es && ScanAll(pre).Err?
    ensures ScanAll(es) == ScanAll(pre)
    decreases |es|
  {
    if |pre| < |es| {
      var n := |es| - 1;
      assert pre <= es[..n];
      ScanErrSticks(es[..n], pre);
    } else {
      assert pre == es;
    }
  }

  /** The entries of the first `m` rows come first. */
  lemma {:induction false} EntriesPrefix(board: seq<seq<Elem>>, m: nat)
    requires m <= |board|
    ensures Entries(board[..m]) <= Entries(board)
    decreases |board|
  {
    if m < |board| {
      var n := |board| - 1;
      assert board[..n][..m] == board[..m];
      EntriesPrefix(board[..n], m);
    } else {
      assert board[..m] == board;
    }
  }

  /** The entries of row `y` follow those of the rows before it. */
  lemma EntriesGrow(board: seq<seq<Elem>>, y: nat)
    requires y < |board|
    ensures Entries(board[..y + 1]) == Entries(board[..y]) + RowEntries(board[y], y)
  {
    assert board[..y + 1][..y] == board[..y];
  }

  /** One more entry of row `y` is one more step of the scan. */
  lemma ScanRowStep(before: seq<Entry>, row: seq<Elem>, y: int, x: nat)
    requires x < |row|
    ensures ScanAll(before + RowEntries(row, y)[..x + 1])
         == ScanStep(ScanAll(before + RowEntries(row, y)[..x]), (Location(y, x), row[x]))
  {
    var es := before + RowEntries(row, y)[..x + 1];
    assert es[..|es| - 1] == before + RowEntries(row, y)[..x];
  }

  /** A scan that fails within a row fails the same way over the whole row. */
  lemma ScanRowFails(before: seq<Entry>, row: seq<Elem>, y: int, x: nat)
    requires x < |row| && ScanAll(before + RowEntries(row, y)[..x + 1]).Err?
    ensures ScanAll(before + RowEntries(row, y)) == ScanAll(before + RowEntries(row, y)[..x + 1])
  {
    var es := before + RowEntries(row, y);
    var pre := before + RowEntries(row, y)[..x + 1];
    assert pre <= es;
    ScanErrSticks(es, pre);
  }

  /** The inner loop of the scan: the elements of row `y`, left to right. */
  method ScanRow(ghost before: seq<Entry>, row: seq<Elem>, y: int, cells0: map<int, Location>, autos0: seq<Location>)
    returns (r: Result<Scan, BoardError>)
    requires ScanAll(before) == Ok(Scan(cells0, autos0))
    ensures r == ScanAll(before + RowEntries(row, y))
  {
    var cells, locsToAdd := cells0, autos0;
    assert before + RowEntries(row, y)[..0] == before;
    for x := 0 to |row|
      invariant ScanAll(before + RowEntries(row, y)[..x]) == Ok(Scan(cells, locsToAdd))
    {
      ScanRowStep(before, row, y, x);
      match row[x]
      case Gap =>
      case CellId(id) =>
        if id in cells {
          ScanRowFails(before, row, y, x);
          return Err(DuplicateIds);
        }
        cells := cells[id := Location(y, x)];
      case Auto =>
        locsToAdd := locsToAdd + [Location(y, x)];
      case Other(text) =>
        ScanRowFails(before, row, y, x);
        return Err(Unrecognized(text));
    }
    assert RowEntries(row, y)[..|row|] == RowEntries(row, y);
    return Ok(Scan(cells, locsToAdd));
  }

  /** A failure within the first `m` rows is the failure of the whole scan. */
  lemma ScanRowsFail(board: seq<seq<Elem>>, m: nat)
    requires m <= |board| && ScanAll(Entries(board[..m])).Err?
    ensures ScanAll(Entries(board)) == ScanAll(Entries(board[..m]))
  {
    EntriesPrefix(board, m);
    ScanErrSticks(Entries(board), Entries(board[..m]));
  }

  /** The scan loop over the rows. */
  method ScanBoard(board: seq<seq<Elem>>) returns (r: Result<Scan, BoardError>)
    ensures r == ScanAll(Entries(board))
  {
    var cells: map<int, Location> := map[];
    var locsToAdd: seq<Location> := [];
    for y := 0 to |board|
      invariant ScanAll(Entries(board[..y])) == Ok(Scan(cells, locsToAdd))
    {
      EntriesGrow(board, y);
      var s := ScanRow(Entries(board[..y]), board[y], y, cells, locsToAdd);
      if s.Err? {
        ScanRowsFail(board, y + 1);
        return s;
      }
      cells, locsToAdd := s.value.cells, s.value.autos;
    }
    assert board[..|board|] == board;
    return Ok(Scan(cells, locsToAdd));
  }

  /** The fill loop: each queued cell takes the next id not yet used. */
  method FillIds(cells0: map<int, Location>, locsToAdd: seq<Location>) returns (cells: map<int, Location>)
    ensures cells == Fill(cells0, locsToAdd, 0)
  {
    cells := cells0;
    var tryId := 0;
    for k := 0 to |locsToAdd|
      invariant Fill(cells0, locsToAdd, 0) == Fill(cells, locsToAdd[k..], tryId)
    {
      ghost var target := NextFree(cells.Keys, tryId);
      while tryId in cells
        invariant NextFree(cells.Keys, tryId) == target
        decreases |UsedFrom(cells.Keys, tryId)|
      {
        UsedFromShrinks(cells.Keys, tryId);
        tryId := tryId + 1;
      }
      assert locsToAdd[k..][1..] == locsToAdd[k + 1..];
      cells := cells[tryId := locsToAdd[k]];
    }
  }

  /**
   * `from_string`'s id assignment: the scan, the fill, and the final check
   * that the ids are `0 .. n-1`.
   */
  method FromString(board: seq<seq<Elem>>) returns (r: Result<map<int, Location>, BoardError>)
    ensures r == AssignIds(board)
  {
    var s := ScanBoard(board);
    if s.Err? {
      return Err(s.error);
    }
    var cells := FillIds(s.value.cells, s.value.autos);
    if cells.Keys != Range(|cells|) {
      return Err(NotConsecutive);
    }
    return Ok(cells);
  }

  // ---------------------------------------------------------------- what the scan gathers

  /** Entry `i` of `es` names the id `id` explicitly. */
  predicate Claims(es: seq<Entry>, i: int, id: int)
  {
    0 <= i < |es| && es[i].1 == CellId(id)
  }

  /** Every element is a gap, an id or `a`. */
  predicate Recognized(es: seq<Entry>)
  {
    forall i | 0 <= i < |es| :: !es[i].1.Other?
  }

  /** No id is named twice. */
  ghost predicate UniqueIds(es: seq<Entry>)
  {
    forall i, j, id | Claims(es, i, id) && Claims(es, j, id) :: i == j
  }

  /** The ids named explicitly. */
  function ExplicitIds(es: seq<Entry>): set<int>
  {
    set i | 0 <= i < |es| && es[i].1.CellId? :: es[i].1.id
  }

  /** The locations of the `a` cells, in scan order. */
  function AutoLocs(es: seq<Entry>): seq<Location>
    decreases |es|
  {
    if es == [] then []
    else AutoLocs(es[..|es| - 1]) + (if es[|es| - 1].1.Auto? then [es[|es| - 1].0] else [])
  }

  /** `s` holds exactly the explicit ids of `es` at their cells, and the `a` cells in order. */
  ghost predicate Describes(es: seq<Entry>, s: Scan)
  {
    && s.cells.Keys == ExplicitIds(es)
    && (forall i, id | Claims(es, i, id) :: id in s.cells && s.cells[id] == es[i].0)
    && s.autos == AutoLocs(es)
  }

  /** The explicit ids after one more entry. */
  lemma ExplicitIdsSnoc(p: seq<Entry>, e: Entry)
    ensures ExplicitIds(p + [e]) == ExplicitIds(p) + (if e.1.CellId? then {e.1.id} else {})
  {
    var es := p + [e];
    forall id | id in ExplicitIds(es) ensures id in ExplicitIds(p) || (e.1.CellId? && id == e.1.id) {
      var i :| 0 <= i < |es| && es[i].1.CellId? && es[i].1.id == id;
      if i < |p| {
        assert p[i] == es[i];
      }
    }
    forall id | id in ExplicitIds(p) ensures id in ExplicitIds(es) {
      var i :| 0 <= i < |p| && p[i].1.CellId? && p[i].1.id == id;
      assert es[i] == p[i];
    }
    if e.1.CellId? {
      assert es[|p|] == e;
    }
  }

  /** An explicit id added to a scan that describes `p` extends the description by `e`. */
  lemma ClaimStep(p: seq<Entry>, e: Entry, s: Scan)
    requires Describes(p, s) && UniqueIds(p + [e]) && e.1.CellId?
    ensures e.1.id !in s.cells
    ensures forall i, id | Claims(p + [e], i, id) :: id in s.cells[e.1.id := e.0] && s.cells[e.1.id := e.0][id] == (p + [e])[i].0
  {
    var es := p + [e];
    var n := |p|;
    if e.1.id in s.cells {
      var i :| 0 <= i < |p| && p[i].1.CellId? && p[i].1.id == e.1.id;
      assert es[i] == p[i];
      assert Claims(es, i, e.1.id) && Claims(es, n, e.1.id);
    }
    forall i, id | Claims(es, i, id)
      ensures id in s.cells[e.1.id := e.0] && s.cells[e.1.id := e.0][id] == es[i].0
    {
      if i < n {
        assert es[i] == p[i];
        assert Claims(p, i, id);
      }
    }
  }

  /** One more recognised entry, with no repeated id, keeps the scan describing the entries. */
  lemma DescribesStep(p: seq<Entry>, e: Entry, s: Scan)
    requires Describes(p, s) && UniqueIds(p + [e]) && !e.1.Other?
    ensures ScanStep(Ok(s), e).Ok? && Describes(p + [e], ScanStep(Ok(s), e).value)
  {
    var es := p + [e];
    assert es[..|p|] == p;
    assert AutoLocs(es) == AutoLocs(p) + (if e.1.Auto? then [e.0] else []);
    ExplicitIdsSnoc(p, e);
    if e.1.CellId? {
      ClaimStep(p, e, s);
    } else {
      forall i, id | Claims(es, i, id) ensures id in s.cells && s.cells[id] == es[i].0 {
        assert es[i] == p[i];
        assert Claims(p, i, id);
      }
    }
  }

  lemma {:induction false} ScanSucceeds(es: seq<Entry>)
    requires Recognized(es) && UniqueIds(es)
    ensures ScanAll(es).Ok? && Describes(es, ScanAll(es).value)
    decreases |es|
  {
    if es != [] {
      var n := |es| - 1;
      var p := es[..n];
      assert es == p + [es[n]];
      assert forall i | 0 <= i < n :: p[i] == es[i];
      assert forall i, id | Claims(p, i, id) :: Claims(es, i, id);
      ScanSucceeds(p);
      DescribesStep(p, es[n], ScanAll(p).value);
    }
  }

  lemma {:induction false} ScanFails(es: seq<Entry>)
    requires !(Recognized(es) && UniqueIds(es))
    ensures ScanAll(es).Err?
    decreases |es|
  {
    var n := |es| - 1;
    var p := es[..n];
    assert forall i | 0 <= i < n :: p[i] == es[i];
    assert forall i, id | Claims(p, i, id) :: Claims(es, i, id);
    if !(Recognized(p) && UniqueIds(p)) {
      ScanFails(p);
    } else if es[n].1.Other? {
    } else {
      ScanSucceeds(p);
      var i, j, id :| Claims(es, i, id) && Claims(es, j, id) && i != j;
      if j < n && i < n {
        assert Claims(p, i, id) && Claims(p, j, id);
      } else if i < n {
        assert Claims(p, i, id);
      } else {
        assert Claims(p, j, id);
      }
    }
  }

  /** The scan succeeds exactly when no element is unrecognised and no id is repeated. */
  lemma ScanOutcome(es: seq<Entry>)
    ensures ScanAll(es).Ok? <==> Recognized(es) && UniqueIds(es)
    ensures ScanAll(es).Ok? ==> Describes(es, ScanAll(es).value)
  {
    if Recognized(es) && UniqueIds(es) {
      ScanSucceeds(es);
    } else {
      ScanFails(es);
    }
  }

  /** An `Unrecognized` failure names an element of the board. */
  lemma {:induction false} ScanErrWitness(es: seq<Entry>)
    requires ScanAll(es).Err?
    ensures ScanAll(es).error == DuplicateIds
         || (ScanAll(es).error.Unrecognized? && exists i | 0 <= i < |es| :: es[i].1 == Other(ScanAll(es).error.text))
    decreases |es|
  {
    var n := |es| - 1;
    var p := es[..n];
    if ScanAll(p).Err? {
      ScanErrWitness(p);
      if ScanAll(p).error != DuplicateIds {
        var i :| 0 <= i < |p| && p[i].1 == Other(ScanAll(p).error.text);
        assert es[i] == p[i];
      }
    } else {
      assert ScanAll(es).error == DuplicateIds || es[n].1 == Other(ScanAll(es).error.text);
    }
  }

  // ---------------------------------------------------------------- what the fill assigns

  /**
   * The new ids are fresh, increasing, and leave no free id below the last
   * of them unused.
   */
  lemma {:induction false} NewIdsMeaning(used: set<int>, t: int, n: nat)
    ensures forall i | 0 <= i < n :: NewIds(used, t, n)[i] >= t && NewIds(used, t, n)[i] !in used
    ensures forall i, j | 0 <= i < j < n :: NewIds(used, t, n)[i] < NewIds(used, t, n)[j]
    ensures n > 0 ==> forall m | t <= m <= NewIds(used, t, n)[n - 1] && m !in used :: m in NewIds(used, t, n)
    decreases n
  {
    if n > 0 {
      var a := NextFree(used, t);
      var rest := NewIds(used + {a}, a, n - 1);
      NewIdsMeaning(used + {a}, a, n - 1);
      var ids := NewIds(used, t, n);
      assert ids == [a] + rest;
      assert forall i | 0 < i < n :: ids[i] == rest[i - 1];
      forall m | t <= m <= ids[n - 1] && m !in used
        ensures m in ids
      {
        if m != a {
          assert m >= a;
          assert m in rest;
        }
      }
    }
  }

  /** The fill keeps the explicit cells. */
  lemma {:induction false} FillKeeps(cells: map<int, Location>, autos: seq<Location>, t: int)
    ensures forall k | k in cells :: k in Fill(cells, autos, t) && Fill(cells, autos, t)[k] == cells[k]
    decreases |autos|
  {
    if autos != [] {
      var a := NextFree(cells.Keys, t);
      FillKeeps(cells[a := autos[0]], autos[1..], a);
    }
  }

  /** The new ids, after the first, as the search resumed from the first. */
  lemma NewIdsTail(cells: map<int, Location>, autos: seq<Location>, t: int)
    requires autos != []
    ensures var a := NextFree(cells.Keys, t);
      NewIds(cells.Keys, t, |autos|) == [a] + NewIds(cells[a := autos[0]].Keys, a, |autos| - 1)
  {
    var a := NextFree(cells.Keys, t);
    assert cells[a := autos[0]].Keys == cells.Keys + {a};
  }

  /** The fill gives the `i`-th queued cell the `i`-th new id. */
  lemma {:induction false} FillAssigns(cells: map<int, Location>, autos: seq<Location>, t: int)
    ensures forall i | 0 <= i < |autos| ::
      NewIds(cells.Keys, t, |autos|)[i] in Fill(cells, autos, t)
      && Fill(cells, autos, t)[NewIds(cells.Keys, t, |autos|)[i]] == autos[i]
    decreases |autos|
  {
    if autos != [] {
      var a := NextFree(cells.Keys, t);
      var next := cells[a := autos[0]];
      FillAssigns(next, autos[1..], a);
      FillKeeps(next, autos[1..], a);
      NewIdsTail(cells, autos, t);
      var ids := NewIds(cells.Keys, t, |autos|);
      var rest := NewIds(next.Keys, a, |autos| - 1);
      assert forall i | 0 < i < |autos| :: ids[i] == rest[i - 1] && autos[i] == autos[1..][i - 1];
    }
  }

  /** The fill adds no id but the new ones, one per queued cell. */
  lemma {:induction false} FillAddsOnly(cells: map<int, Location>, autos: seq<Location>, t: int)
    ensures forall k | k in Fill(cells, autos, t) :: k in cells || k in NewIds(cells.Keys, t, |autos|)
    ensures |Fill(cells, autos, t)| == |cells| + |autos|
    decreases |autos|
  {
    if autos != [] {
      var a := NextFree(cells.Keys, t);
      var next := cells[a := autos[0]];
      FillAddsOnly(next, autos[1..], a);
      NewIdsTail(cells, autos, t);
    }
  }

  // ---------------------------------------------------------------- the consecutive check

  lemma {:induction false} RangeSize(n: nat)
    ensures |Range(n)| == n
  {
    if n > 0 {
      RangeMeaning(n - 1, n - 1);
      RangeSize(n - 1);
    }
  }

  lemma SubsetSize<T>(a: set<T>, b: set<T>)
    requires a <= b
    ensures |a| <= |b| && (|a| == |b| ==> a == b)
  {
    assert b == a + (b - a);
  }

  /** `n` integers that include `0 .. n-1` are `0 .. n-1`. */
  lemma CoveringIsRange(keys: set<int>, n: nat)
    requires |keys| == n && forall m | 0 <= m < n :: m in keys
    ensures keys == Range(n)
  {
    RangeSize(n);
    forall i | i in Range(n) ensures i in keys {
      RangeMeaning(n, i);
    }
    SubsetSize(Range(n), keys);
  }

  /** `n` integers within `0 .. n-1` are `0 .. n-1`. */
  lemma BoundedIsRange(keys: set<int>, n: nat)
    requires |keys| == n && forall k | k in keys :: 0 <= k < n
    ensures keys == Range(n)
  {
    RangeSize(n);
    forall i | i in keys ensures i in Range(n) {
      RangeMeaning(n, i);
    }
    SubsetSize(keys, Range(n));
  }

  /** The ids present after the fill: the explicit ones and the new ones. */
  lemma FillKeys(cells: map<int, Location>, autos: seq<Location>, t: int)
    ensures forall k :: k in Fill(cells, autos, t) <==> k in cells || k in NewIds(cells.Keys, t, |autos|)
    ensures |Fill(cells, autos, t)| == |cells| + |autos|
  {
    FillKeeps(cells, autos, t);
    FillAssigns(cells, autos, t);
    FillAddsOnly(cells, autos, t);
  }

  /**
   * With every explicit id below `n`, the number of cells, so is the last new
   * id: otherwise `0 .. n-1` and that id would be `n + 1` ids among `n`.
   */
  lemma LastNewIdBelow(cells: map<int, Location>, autos: seq<Location>)
    requires autos != [] && forall k | k in cells :: 0 <= k < |cells| + |autos|
    ensures NewIds(cells.Keys, 0, |autos|)[|autos| - 1] < |cells| + |autos|
  {
    var n := |cells| + |autos|;
    var last := NewIds(cells.Keys, 0, |autos|)[|autos| - 1];
    if last >= n {
      var keys := Fill(cells, autos, 0).Keys;
      FillKeys(cells, autos, 0);
      NewIdsMeaning(cells.Keys, 0, |autos|);
      CoveringIsRange(keys, n);
      RangeMeaning(n, last);
    }
  }

  /** With every explicit id below `n`, the new ids are too. */
  lemma NewIdsBelow(cells: map<int, Location>, autos: seq<Location>)
    requires forall k | k in cells :: 0 <= k < |cells| + |autos|
    ensures forall k | k in NewIds(cells.Keys, 0, |autos|) :: 0 <= k < |cells| + |autos|
  {
    if autos != [] {
      var ids := NewIds(cells.Keys, 0, |autos|);
      NewIdsMeaning(cells.Keys, 0, |autos|);
      LastNewIdBelow(cells, autos);
      assert forall i | 0 <= i < |autos| :: 0 <= ids[i] <= ids[|autos| - 1];
    }
  }

  /**
   * Starting from 0, the ids end up exactly `0 .. n-1` if and only if every
   * explicit id is below `n`, the number of cells.
   */
  lemma FillConsecutive(cells: map<int, Location>, autos: seq<Location>)
    ensures |Fill(cells, autos, 0)| == |cells| + |autos|
    ensures Fill(cells, autos, 0).Keys == Range(|Fill(cells, autos, 0)|)
        <==> forall k | k in cells :: 0 <= k < |cells| + |autos|
  {
    var n := |cells| + |autos|;
    var keys := Fill(cells, autos, 0).Keys;
    FillKeys(cells, autos, 0);
    if forall k | k in cells :: 0 <= k < n {
      NewIdsBelow(cells, autos);
      BoundedIsRange(keys, n);
    } else if keys == Range(n) {
      var k :| k in cells && !(0 <= k < n);
      RangeMeaning(n, k);
    }
  }

  /**
   * The id assignment accepts a board exactly when every element is
   * recognised, no id is repeated, and every explicit id is below the number
   * of cells.
   */
  lemma AssignIdsAccepts(board: seq<seq<Elem>>)
    ensures AssignIds(board).Ok?
        <==> && Recognized(Entries(board)) && UniqueIds(Entries(board))
             && forall id | id in ExplicitIds(Entries(board)) ::
                  0 <= id < |ExplicitIds(Entries(board))| + |AutoLocs(Entries(board))|
  {
    var es := Entries(board);
    ScanOutcome(es);
    if ScanAll(es).Ok? {
      var s := ScanAll(es).value;
      FillConsecutive(s.cells, s.autos);
      assert |s.cells| == |ExplicitIds(es)|;
    }
  }

  /**
   * An accepted board keeps each explicit id at its cell and gives the `a`
   * cells, in scan order, the smallest ids left free; the ids are `0 .. n-1`.
   */
  lemma AssignIdsOk(board: seq<seq<Elem>>)
    requires AssignIds(board).Ok?
    ensures AssignIds(board).value.Keys == Range(|AssignIds(board).value|)
    ensures |AssignIds(board).value| == |ExplicitIds(Entries(board))| + |AutoLocs(Entries(board))|
    ensures forall i, id | Claims(Entries(board), i, id) ::
      id in AssignIds(board).value && AssignIds(board).value[id] == Entries(board)[i].0
    ensures forall i | 0 <= i < |AutoLocs(Entries(board))| ::
      var id := NewIds(ExplicitIds(Entries(board)), 0, |AutoLocs(Entries(board))|)[i];
      id in AssignIds(board).value && AssignIds(board).value[id] == AutoLocs(Entries(board))[i]
  {
    var es := Entries(board);
    ScanOutcome(es);
    var s := ScanAll(es).value;
    FillKeeps(s.cells, s.autos, 0);
    FillAssigns(s.cells, s.autos, 0);
    FillAddsOnly(s.cells, s.autos, 0);
    assert |s.cells| == |ExplicitIds(es)|;
  }
}

/**
 * The histogram registry. Histograms sit as panes in a tile map; grids
 * (inside tabs) hold them for display; `tabNames` gives each grid its tab
 * name; `gridHistogramMap` records which panes were placed in which grid;
 * `handles` are the fill threads not yet joined.
 *
 * Tile ids come from a counter, as the tile library's `insert_new` does.
 * A fill thread is represented by its handle and the job it was spawned
 * with; `RunThread` is the sequential stand-in for the thread running.
 */
module Histogrammer {
  import opened Common
  import opened Histograms
  import opened Threads

  type TileId = nat

  datatype Dim = OneD | TwoD

  datatype Pane = Hist(h1: Histogram) | Hist2(h2: Histogram2D)

  datatype Container = Grid(children: seq<TileId>) | Tabs(children: seq<TileId>)

  datatype Tile = PaneTile(pane: Pane) | ContainerTile(container: Container)

  /** A data source: columns of possibly missing f64 values, by name. */
  type Frame = map<string, seq<Option<real>>>

  /**
   * What a fill thread was spawned with: the tile of its histogram, the
   * range captured for the filter at dispatch time, the data and the
   * column names.
   */
  datatype Job =
    | Fill1D(pane: TileId, range: Range, frame: Frame, column: string)
    | Fill2D(pane: TileId, range2: Range2, frame: Frame, xColumn: string, yColumn: string)

  type FillHandle = Handle<Job>

  function PaneDim(p: Pane): Dim {
    if p.Hist? then OneD else TwoD
  }

  function PaneName(p: Pane): string {
    if p.Hist? then p.h1.name else p.h2.name
  }

  predicate IsPaneNamed(t: Tile, dim: Dim, name: string) {
    t.PaneTile? && PaneDim(t.pane) == dim && PaneName(t.pane) == name
  }

  predicate IsGrid(t: Tile) {
    t.ContainerTile? && t.container.Grid?
  }

  predicate IsTabs(t: Tile) {
    t.ContainerTile? && t.container.Tabs?
  }

  /** Two panes that a lookup by name and dimensionality cannot tell apart. */
  predicate SameKey(s: Tile, t: Tile) {
    s.PaneTile? && t.PaneTile? && PaneDim(s.pane) == PaneDim(t.pane) && PaneName(s.pane) == PaneName(t.pane)
  }

  /** A name identifies at most one histogram of each dimensionality. */
  ghost predicate UniqueNames(tiles: map<TileId, Tile>) {
    forall a, b {:trigger SameKey(tiles[a], tiles[b])} :: a in tiles && b in tiles && SameKey(tiles[a], tiles[b]) ==> a == b
  }

  ghost predicate HasPane(tiles: map<TileId, Tile>, dim: Dim, name: string) {
    exists id :: id in tiles && IsPaneNamed(tiles[id], dim, name)
  }

  /** The tile of the histogram with this name and dimensionality. */
  ghost function PaneId(tiles: map<TileId, Tile>, dim: Dim, name: string): (id: TileId)
    requires HasPane(tiles, dim, name)
    ensures id in tiles && IsPaneNamed(tiles[id], dim, name)
  {
    var id :| id in tiles && IsPaneNamed(tiles[id], dim, name); id
  }

  /** With unique names, the tile found holding a pane is the one `PaneId` names. */
  lemma PaneIdUnique(tiles: map<TileId, Tile>, id: TileId, dim: Dim, name: string)
    requires UniqueNames(tiles)
    requires id in tiles && IsPaneNamed(tiles[id], dim, name)
    ensures HasPane(tiles, dim, name) && PaneId(tiles, dim, name) == id
  {
    assert SameKey(tiles[id], tiles[PaneId(tiles, dim, name)]);
  }

  /** Names stay unique when a tile becomes a container, or a pane under the same name and dimensionality. */
  lemma UniqueAfterReplace(tiles: map<TileId, Tile>, id: TileId, t: Tile)
    requires UniqueNames(tiles)
    requires t.PaneTile? ==> id in tiles && SameKey(t, tiles[id])
    ensures UniqueNames(tiles[id := t])
  {
    var t1 := tiles[id := t];
    forall a, b | a in t1 && b in t1 && SameKey(t1[a], t1[b])
      ensures a == b
    {
      if a != id && b != id {
        assert SameKey(tiles[a], tiles[b]);
      }
    }
  }

  /** ... and when a pane is inserted under a name its dimensionality does not use yet. */
  lemma UniqueAfterInsert(tiles: map<TileId, Tile>, id: TileId, t: Tile)
    requires UniqueNames(tiles)
    requires id !in tiles
    requires t.PaneTile? && !HasPane(tiles, PaneDim(t.pane), PaneName(t.pane))
    ensures UniqueNames(tiles[id := t])
  {
  }

  /** The grids whose tab is named "Other". */
  ghost function OtherGridsOf(tiles: map<TileId, Tile>, tabNames: map<TileId, string>): set<TileId> {
    set id | id in tiles && IsGrid(tiles[id]) && id in tabNames && tabNames[id] == "Other"
  }

  /** `select` + `filter` + `collect` of one column; fails when the column is missing. */
  function Collect(frame: Frame, column: string, r: Range): Option<seq<Option<real>>> {
    if column in frame then Some(Select(frame[column], r)) else None
  }

  /**
   * `select` of the two columns + `filter` + `collect`. It fails when a
   * column is missing, and when both names are the same, since a frame
   * cannot hold two output columns of one name.
   */
  function Collect2D(frame: Frame, xColumn: string, yColumn: string, r: Range2): Option<seq<Row>> {
    if xColumn in frame && yColumn in frame && xColumn != yColumn then Some(Select2D(Zip(frame[xColumn], frame[yColumn]), r)) else None
  }

  /** `Grid::add_child`, done only when tile `g` is a grid. */
  function Attach(tiles: map<TileId, Tile>, g: TileId, p: TileId): map<TileId, Tile> {
    if g in tiles && IsGrid(tiles[g]) then tiles[g := ContainerTile(Grid(tiles[g].container.children + [p]))] else tiles
  }

  /** `grid_histogram_map.entry(g).or_default().push(p)`, done only when tile `g` is a grid. */
  function Record(m: map<TileId, seq<TileId>>, tiles: map<TileId, Tile>, g: TileId, p: TileId): map<TileId, seq<TileId>> {
    if g in tiles && IsGrid(tiles[g]) then m[g := (if g in m then m[g] else []) + [p]] else m
  }

  /**
   * The tile map and root after `create_grid` has allocated an empty grid
   * `g` inside a new tab `g + 1` (and, when needed, a new root `g + 2`).
   * Afterwards the root is a tabs container from which the new tab is
   * reachable, and no other tile is touched except the root.
   */
  function GridAdded(tiles: map<TileId, Tile>, root: Option<TileId>, g: TileId): (after: (map<TileId, Tile>, Option<TileId>))
    requires forall id :: id in tiles ==> id < g
    requires root.Some? ==> root.value in tiles
    ensures after.1.Some? && after.1.value in after.0 && IsTabs(after.0[after.1.value])
    ensures g in after.0 && after.0[g] == ContainerTile(Grid([]))
    ensures g + 1 in after.0 && after.0[g + 1] == ContainerTile(Tabs([g]))
    ensures root.None? ==> after.1 == Some(g + 1)
    ensures root.Some? && IsTabs(tiles[root.value]) ==>
      after.1 == root && after.0[root.value] == ContainerTile(Tabs(tiles[root.value].container.children + [g + 1]))
    ensures root.Some? && !IsTabs(tiles[root.value]) ==>
      after.1 == Some(g + 2) && g + 2 in after.0 && after.0[g + 2] == ContainerTile(Tabs([root.value, g + 1]))
    ensures forall id :: id in after.0 && id != g && !IsTabs(after.0[id]) ==> id in tiles && after.0[id] == tiles[id]
    ensures forall id :: id in tiles && Some(id) != root ==> id in after.0 && after.0[id] == tiles[id]
    ensures forall id :: id in after.0 ==> id in tiles || g <= id <= g + 2
  {
    var tab: TileId := g + 1;
    var wrapper: TileId := g + 2;
    var t := tiles[g := ContainerTile(Grid([]))][tab := ContainerTile(Tabs([g]))];
    match root
    case None => (t, Some(tab))
    case Some(r) =>
      if r in t && IsTabs(t[r]) then (t[r := ContainerTile(Tabs(t[r].container.children + [tab]))], root)
      else (t[wrapper := ContainerTile(Tabs([r, tab]))], Some(wrapper))
  }

  /** Creating a grid adds only containers, so names stay unique. */
  lemma GridAddedUnique(tiles: map<TileId, Tile>, root: Option<TileId>, g: TileId)
    requires forall id :: id in tiles ==> id < g
    requires root.Some? ==> root.value in tiles
    requires UniqueNames(tiles)
    ensures UniqueNames(GridAdded(tiles, root, g).0)
  {
    var t1 := GridAdded(tiles, root, g).0;
    forall a, b | a in t1 && b in t1 && SameKey(t1[a], t1[b])
      ensures a == b
    {
      assert a in tiles && t1[a] == tiles[a];
      assert b in tiles && t1[b] == tiles[b];
    }
  }

  /** The tiles, root, tab names and grid map: the state that placing a pane works on. */
  datatype Layout = Layout(
    tiles: map<TileId, Tile>, root: Option<TileId>,
    tabNames: map<TileId, string>, gridHistogramMap: map<TileId, seq<TileId>>)

  /**
   * Where a new pane `p` ended up: `before` is the layout with the pane
   * already inserted, `after` the layout once it is placed. A given grid is
   * used as it is; with none, a grid whose tab is named "Other" is used,
   * and one is created first when there is none.
   */
  ghost predicate Placed(before: Layout, p: TileId, grid: Option<TileId>, target: TileId, after: Layout) {
    match grid
    case Some(g) =>
      && target == g
      && after == before.(tiles := Attach(before.tiles, g, p),
                          gridHistogramMap := Record(before.gridHistogramMap, before.tiles, g, p))
    case None =>
      var others := OtherGridsOf(before.tiles, before.tabNames);
      if others != {} then
        && target in others
        && after == before.(tiles := Attach(before.tiles, target, p),
                            gridHistogramMap := Record(before.gridHistogramMap, before.tiles, target, p))
      else
        && (forall id :: id in before.tiles ==> id < target)
        && (before.root.Some? ==> before.root.value in before.tiles)
        && var added := GridAdded(before.tiles, before.root, target);
        && after == Layout(Attach(added.0, target, p), added.1, before.tabNames[target := "Other"],
                           Record(before.gridHistogramMap, added.0, target, p))
  }

  /** The tiles after a fill thread has run its job to completion. */
  ghost function AfterJob(tiles: map<TileId, Tile>, job: Job): map<TileId, Tile> {
    match job
    case Fill1D(p, r, frame, column) =>
      (match Collect(frame, column, r)
       case Some(kept) =>
         if p in tiles && tiles[p].PaneTile? && tiles[p].pane.Hist? then
           var h := tiles[p].pane.h1;
           tiles[p := PaneTile(Hist(h.(calls := h.calls + FillCalls(kept, |kept|), progress := None)))]
         else tiles
       case None => tiles)
    case Fill2D(p, r, frame, xColumn, yColumn) =>
      match Collect2D(frame, xColumn, yColumn, r)
      case Some(kept) =>
        if p in tiles && tiles[p].PaneTile? && tiles[p].pane.Hist2? then
          var h := tiles[p].pane.h2;
          tiles[p := PaneTile(Hist2(h.(calls := h.calls + FillCalls2(kept, |kept|), progress := None)))]
        else tiles
      case None => tiles
  }

  class Histogrammer {
    var tiles: map<TileId, Tile>
    var root: Option<TileId>
    var tabNames: map<TileId, string>
    var gridHistogramMap: map<TileId, seq<TileId>>
    var handles: seq<FillHandle>
    var nextTileId: TileId
    var nextHandleId: nat

    /** Tile ids below the counter, a root that exists, names unique per dimensionality. */
    ghost predicate Valid()
      reads this
    {
      && (forall id :: id in tiles ==> id < nextTileId)
      && (root.Some? ==> root.value in tiles)
      && UniqueNames(tiles)
    }

    ghost function OtherGrids(): set<TileId>
      reads this
    {
      OtherGridsOf(tiles, tabNames)
    }

    /** The layout part of the state: what placing a pane may change. */
    ghost function Snapshot(): Layout
      reads this
    {
      Layout(tiles, root, tabNames, gridHistogramMap)
    }

    constructor ()
      ensures Valid()
      ensures tiles == map[] && root == None && tabNames == map[] && gridHistogramMap == map[] && handles == []
    {
      tiles := map[];
      root := None;
      tabNames := map[];
      gridHistogramMap := map[];
      handles := [];
      nextTileId := 0;
      nextHandleId := 0;
    }

    /**
     * Joins the fill threads that have finished: their indices are
     * collected in ascending order, then swap-removed from the highest
     * down. Exactly the running handles stay (in some order), and every
     * finished handle is joined once, highest index first.
     */
    method CheckAndJoinFinishedThreads() returns (joined: seq<FillHandle>)
      modifies this`handles
      ensures old(handles) == [] ==> handles == [] && joined == []
      ensures multiset(handles) == multiset(Running(old(handles)))
      ensures joined == Reverse(Finished(old(handles)))
      ensures multiset(handles) + multiset(joined) == multiset(old(handles))
    {
      joined := [];
      if |handles| == 0 {
        return;
      }
      ghost var hs := handles;
      var finishedIndices := FinishedIndices(handles);

      var j := |finishedIndices|;
      ghost var bound := |hs|;
      while j > 0
        invariant 0 <= j <= |finishedIndices|
        invariant FinishedIndicesOf(hs, finishedIndices)
        invariant bound == if j < |finishedIndices| then finishedIndices[j] else |hs|
        invariant bound <= |hs| && bound <= |handles|
        invariant handles[..bound] == hs[..bound]
        invariant multiset(handles[bound..]) == multiset(Running(hs[bound..]))
        invariant joined == Reverse(Finished(hs[bound..]))
      {
        var idx := finishedIndices[j - 1];
        GapBelow(hs, finishedIndices, j);
        JoinStep(hs, handles, idx, bound);
        ReverseCons(hs[idx], Finished(hs[bound..]));
        var handle := handles[idx];
        handles := SwapRemove(handles, idx);
        joined := joined + [handle];
        bound := idx;
        j := j - 1;
      }
      GapBelow(hs, finishedIndices, 0);
      JoinDone(hs, handles, bound);
      JoinedAll(hs, bound);
      JoinLosesNothing(hs, handles, joined);
    }

    /**
     * Creates an empty grid inside a new tab named `tabName` and returns the
     * grid. The tab becomes the root when there is none, is added to the
     * root when the root is a tabs container, and otherwise a new tabs root
     * holds the old root and the new tab, in that order.
     */
    method CreateGrid(tabName: string) returns (gridId: TileId)
      requires Valid()
      modifies this`tiles, this`root, this`tabNames, this`nextTileId
      ensures Valid()
      ensures gridId == old(nextTileId) && gridId !in old(tiles)
      ensures (tiles, root) == GridAdded(old(tiles), old(root), gridId)
      ensures tabNames == old(tabNames)[gridId := tabName]
    {
      gridId := nextTileId;
      ghost var before, rootBefore := tiles, root;
      tiles := tiles[gridId := ContainerTile(Grid([]))];
      var tabId := gridId + 1;
      tiles := tiles[tabId := ContainerTile(Tabs([gridId]))];
      nextTileId := nextTileId + 2;
      tabNames := tabNames[gridId := tabName];
      if root.None? {
        root := Some(tabId);
      } else {
        var rootId := root.value;
        if rootId in tiles && IsTabs(tiles[rootId]) {
          tiles := tiles[rootId := ContainerTile(Tabs(tiles[rootId].container.children + [tabId]))];
        } else {
          var newRootId := nextTileId;
          tiles := tiles[newRootId := ContainerTile(Tabs([rootId, tabId]))];
          nextTileId := nextTileId + 1;
          root := Some(newRootId);
        }
      }
      assert (tiles, root) == GridAdded(before, rootBefore, gridId);
      GridAddedUnique(before, rootBefore, gridId);
    }

    /**
     * Returns a grid whose tab is named "Other", creating one only when no
     * such grid exists; after a creation it is the only one, so the next
     * call returns it again and inserts nothing.
     */
    method GetOrCreateOtherGrid() returns (gridId: TileId)
      requires Valid()
      modifies this`tiles, this`root, this`tabNames, this`nextTileId
      ensures Valid()
      ensures gridId in OtherGrids()
      ensures old(OtherGrids()) != {} ==>
        && gridId in old(OtherGrids())
        && tiles == old(tiles) && root == old(root) && tabNames == old(tabNames) && nextTileId == old(nextTileId)
      ensures old(OtherGrids()) == {} ==>
        && gridId == old(nextTileId)
        && (tiles, root) == GridAdded(old(tiles), old(root), gridId)
        && tabNames == old(tabNames)[gridId := "Other"]
        && OtherGrids() == {gridId}
    {
      var rest := tiles.Keys;
      while rest != {}
        invariant rest <= tiles.Keys
        invariant forall id :: id in tiles && id !in rest ==> id !in OtherGrids()
        decreases rest
      {
        var id :| id in rest;
        if IsGrid(tiles[id]) && id in tabNames && tabNames[id] == "Other" {
          return id;
        }
        rest := rest - {id};
      }
      assert OtherGrids() == {};
      gridId := CreateGrid("Other");
      assert OtherGrids() == {gridId};
    }

    /** Looks a histogram up by name among the panes of one dimensionality. */
    method FindPane(dim: Dim, name: string) returns (found: Option<TileId>)
      requires Valid()
      ensures found.Some? <==> HasPane(tiles, dim, name)
      ensures found.Some? ==> found.value == PaneId(tiles, dim, name)
    {
      var rest := tiles.Keys;
      while rest != {}
        invariant rest <= tiles.Keys
        invariant forall id :: id in tiles && id !in rest ==> !IsPaneNamed(tiles[id], dim, name)
        decreases rest
      {
        var id :| id in rest;
        if IsPaneNamed(tiles[id], dim, name) {
          PaneIdUnique(tiles, id, dim, name);
          return Some(id);
        }
        rest := rest - {id};
      }
      return None;
    }

    /**
     * Attaches pane `paneId` to `grid`, or to the "Other" grid when no grid
     * is given; when the chosen tile is not a grid, nothing is attached.
     */
    method PlacePane(paneId: TileId, grid: Option<TileId>) returns (gridId: TileId)
      requires Valid()
      modifies this`tiles, this`root, this`tabNames, this`nextTileId, this`gridHistogramMap
      ensures Valid()
      ensures Placed(old(Snapshot()), paneId, grid, gridId, Snapshot())
      ensures forall id :: id in old(tiles) && old(tiles)[id].PaneTile? ==> id in tiles && tiles[id] == old(tiles)[id]
    {
      ghost var before := Snapshot();
      match grid {
        case Some(g) =>
          gridId := g;
        case None =>
          gridId := GetOrCreateOtherGrid();
      }
      ghost var mid := Snapshot();
      if gridId in tiles && IsGrid(tiles[gridId]) {
        UniqueAfterReplace(tiles, gridId, ContainerTile(Grid(tiles[gridId].container.children + [paneId])));
        tiles := tiles[gridId := ContainerTile(Grid(tiles[gridId].container.children + [paneId]))];
        gridHistogramMap := gridHistogramMap[gridId := (if gridId in gridHistogramMap then gridHistogramMap[gridId] else []) + [paneId]];
      }
      assert Snapshot() == mid.(tiles := Attach(mid.tiles, gridId, paneId),
                                gridHistogramMap := Record(mid.gridHistogramMap, mid.tiles, gridId, paneId));
      if grid.Some? {
        assert mid == before;
      } else if OtherGridsOf(before.tiles, before.tabNames) != {} {
        assert mid == before;
      } else {
        assert mid == Layout(GridAdded(before.tiles, before.root, gridId).0, GridAdded(before.tiles, before.root, gridId).1,
                             before.tabNames[gridId := "Other"], before.gridHistogramMap);
      }
    }

    /**
     * If a 1D histogram named `name` exists it is reset, with its bins and
     * range kept, and nothing else changes; otherwise a new one is inserted
     * as a pane and placed in a grid.
     */
    method AddHist1D(name: string, bins: nat, range: Range, grid: Option<TileId>)
      returns (ghost paneId: TileId, ghost gridId: TileId)
      requires Valid()
      modifies this`tiles, this`root, this`tabNames, this`nextTileId, this`gridHistogramMap
      ensures Valid()
      ensures paneId in tiles && IsPaneNamed(tiles[paneId], OneD, name)
      ensures old(HasPane(tiles, OneD, name)) ==>
        && paneId in old(tiles) && IsPaneNamed(old(tiles)[paneId], OneD, name)
        && tiles == old(tiles)[paneId := PaneTile(Hist(Reset(old(tiles)[paneId].pane.h1)))]
        && root == old(root) && tabNames == old(tabNames) && gridHistogramMap == old(gridHistogramMap)
      ensures !old(HasPane(tiles, OneD, name)) ==>
        && paneId == old(nextTileId)
        && Placed(old(Snapshot()).(tiles := old(tiles)[paneId := PaneTile(Hist(NewHistogram(name, bins, range)))]), paneId, grid, gridId, Snapshot())
        && tiles[paneId] == PaneTile(Hist(NewHistogram(name, bins, range)))
    {
      var found := FindPane(OneD, name);
      if found.Some? {
        var id := found.value;
        paneId, gridId := id, id;
        UniqueAfterReplace(tiles, id, PaneTile(Hist(Reset(tiles[id].pane.h1))));
        tiles := tiles[id := PaneTile(Hist(Reset(tiles[id].pane.h1)))];
        return;
      }
      var id := nextTileId;
      paneId := id;
      UniqueAfterInsert(tiles, id, PaneTile(Hist(NewHistogram(name, bins, range))));
      tiles := tiles[id := PaneTile(Hist(NewHistogram(name, bins, range)))];
      nextTileId := nextTileId + 1;
      gridId := PlacePane(id, grid);
    }

    /** The same for 2D histograms; a 1D histogram of the same name does not count. */
    method AddHist2D(name: string, bins: (nat, nat), range: Range2, grid: Option<TileId>)
      returns (ghost paneId: TileId, ghost gridId: TileId)
      requires Valid()
      modifies this`tiles, this`root, this`tabNames, this`nextTileId, this`gridHistogramMap
      ensures Valid()
      ensures paneId in tiles && IsPaneNamed(tiles[paneId], TwoD, name)
      ensures old(HasPane(tiles, TwoD, name)) ==>
        && paneId in old(tiles) && IsPaneNamed(old(tiles)[paneId], TwoD, name)
        && tiles == old(tiles)[paneId := PaneTile(Hist2(Reset2D(old(tiles)[paneId].pane.h2)))]
        && root == old(root) && tabNames == old(tabNames) && gridHistogramMap == old(gridHistogramMap)
      ensures !old(HasPane(tiles, TwoD, name)) ==>
        && paneId == old(nextTileId)
        && Placed(old(Snapshot()).(tiles := old(tiles)[paneId := PaneTile(Hist2(NewHistogram2D(name, bins, range)))]), paneId, grid, gridId, Snapshot())
        && tiles[paneId] == PaneTile(Hist2(NewHistogram2D(name, bins, range)))
    {
      var found := FindPane(TwoD, name);
      if found.Some? {
        var id := found.value;
        paneId, gridId := id, id;
        UniqueAfterReplace(tiles, id, PaneTile(Hist2(Reset2D(tiles[id].pane.h2))));
        tiles := tiles[id := PaneTile(Hist2(Reset2D(tiles[id].pane.h2)))];
        return;
      }
      var id := nextTileId;
      paneId := id;
      UniqueAfterInsert(tiles, id, PaneTile(Hist2(NewHistogram2D(name, bins, range))));
      tiles := tiles[id := PaneTile(Hist2(NewHistogram2D(name, bins, range)))];
      nextTileId := nextTileId + 1;
      gridId := PlacePane(id, grid);
    }

    /**
     * Dispatches a fill of the 1D histogram `name` from `column` of `frame`:
     * the filter range is captured now and one running handle is pushed.
     * Returns false, with nothing changed, when there is no such histogram.
     */
    method FillHist1D(name: string, frame: Frame, column: string) returns (ok: bool)
      requires Valid()
      modifies this`handles, this`nextHandleId
      ensures Valid()
      ensures ok == HasPane(tiles, OneD, name)
      ensures !ok ==> handles == old(handles) && nextHandleId == old(nextHandleId)
      ensures ok ==>
        var id := PaneId(tiles, OneD, name);
        handles == old(handles) + [Handle(old(nextHandleId), false, Fill1D(id, tiles[id].pane.h1.range, frame, column))]
    {
      var found := FindPane(OneD, name);
      match found {
        case None =>
          ok := false;
        case Some(id) =>
          var range := tiles[id].pane.h1.range;
          handles := handles + [Handle(nextHandleId, false, Fill1D(id, range, frame, column))];
          nextHandleId := nextHandleId + 1;
          ok := true;
      }
    }

    /**
     * Dispatches a fill of the 2D histogram `name`; before the thread is
     * spawned the two column names are recorded in the histogram's cut
     * settings.
     */
    method FillHist2D(name: string, frame: Frame, xColumn: string, yColumn: string) returns (ok: bool)
      requires Valid()
      modifies this`tiles, this`handles, this`nextHandleId
      ensures Valid()
      ensures ok == old(HasPane(tiles, TwoD, name))
      ensures !ok ==> tiles == old(tiles) && handles == old(handles) && nextHandleId == old(nextHandleId)
      ensures ok ==>
        var id := old(PaneId(tiles, TwoD, name));
        var h := old(tiles[id].pane.h2);
        && tiles == old(tiles)[id := PaneTile(Hist2(h.(xColumn := xColumn, yColumn := yColumn)))]
        && handles == old(handles) + [Handle(old(nextHandleId), false, Fill2D(id, h.range, frame, xColumn, yColumn))]
    {
      var found := FindPane(TwoD, name);
      match found {
        case None =>
          ok := false;
        case Some(id) =>
          var h := tiles[id].pane.h2;
          UniqueAfterReplace(tiles, id, PaneTile(Hist2(h.(xColumn := xColumn, yColumn := yColumn))));
          tiles := tiles[id := PaneTile(Hist2(h.(xColumn := xColumn, yColumn := yColumn)))];
          handles := handles + [Handle(nextHandleId, false, Fill2D(id, h.range, frame, xColumn, yColumn))];
          nextHandleId := nextHandleId + 1;
          ok := true;
      }
    }

    /**
     * `add_hist1d` followed by `fill_hist1d`: an existing histogram is reset
     * and nothing else in the layout changes, a new one is placed as
     * `PlacePane` places it (in grid `gridId`), and in both cases the fill
     * finds the histogram and is dispatched.
     */
    method AddFillHist1D(name: string, frame: Frame, column: string, bins: nat, range: Range, grid: Option<TileId>)
      returns (ghost gridId: TileId)
      requires Valid()
      modifies this`tiles, this`root, this`tabNames, this`nextTileId, this`gridHistogramMap, this`handles, this`nextHandleId
      ensures Valid()
      ensures HasPane(tiles, OneD, name)
      ensures var id := PaneId(tiles, OneD, name);
        handles == old(handles) + [Handle(old(nextHandleId), false, Fill1D(id, tiles[id].pane.h1.range, frame, column))]
      ensures old(HasPane(tiles, OneD, name)) ==>
        var id0 := old(PaneId(tiles, OneD, name));
        && id0 == PaneId(tiles, OneD, name)
        && tiles == old(tiles)[id0 := PaneTile(Hist(Reset(old(tiles)[id0].pane.h1)))]
        && root == old(root) && tabNames == old(tabNames) && gridHistogramMap == old(gridHistogramMap)
      ensures !old(HasPane(tiles, OneD, name)) ==>
        var id := old(nextTileId);
        && id == PaneId(tiles, OneD, name)
        && tiles[id] == PaneTile(Hist(NewHistogram(name, bins, range)))
        && Placed(old(Snapshot()).(tiles := old(tiles)[id := PaneTile(Hist(NewHistogram(name, bins, range)))]), id, grid, gridId, Snapshot())
    {
      ghost var t0 := tiles;
      ghost var had := HasPane(tiles, OneD, name);
      ghost var paneId;
      paneId, gridId := AddHist1D(name, bins, range, grid);
      if had {
        PaneIdUnique(t0, paneId, OneD, name);
      }
      PaneIdUnique(tiles, paneId, OneD, name);
      var _ := FillHist1D(name, frame, column);
    }

    /**
     * `add_hist2d` followed by `fill_hist2d`. `added` is the layout once the
     * histogram is added; the fill then records the two column names in
     * the pane and changes nothing else in it.
     */
    method AddFillHist2D(name: string, frame: Frame, xColumn: string, yColumn: string,
                         bins: (nat, nat), range: Range2, grid: Option<TileId>)
      returns (ghost gridId: TileId, ghost added: Layout)
      requires Valid()
      modifies this`tiles, this`root, this`tabNames, this`nextTileId, this`gridHistogramMap, this`handles, this`nextHandleId
      ensures Valid()
      ensures HasPane(tiles, TwoD, name)
      ensures var id := PaneId(tiles, TwoD, name);
        && handles == old(handles) + [Handle(old(nextHandleId), false, Fill2D(id, tiles[id].pane.h2.range, frame, xColumn, yColumn))]
        && tiles[id].pane.h2.xColumn == xColumn && tiles[id].pane.h2.yColumn == yColumn
      ensures old(HasPane(tiles, TwoD, name)) ==>
        var id0 := old(PaneId(tiles, TwoD, name));
        && id0 == PaneId(tiles, TwoD, name)
        && tiles == old(tiles)[id0 := PaneTile(Hist2(Reset2D(old(tiles)[id0].pane.h2).(xColumn := xColumn, yColumn := yColumn)))]
        && root == old(root) && tabNames == old(tabNames) && gridHistogramMap == old(gridHistogramMap)
      ensures !old(HasPane(tiles, TwoD, name)) ==>
        var id := old(nextTileId);
        var fresh2 := NewHistogram2D(name, bins, range);
        && id == PaneId(tiles, TwoD, name)
        && Placed(old(Snapshot()).(tiles := old(tiles)[id := PaneTile(Hist2(fresh2))]), id, grid, gridId, added)
        && Snapshot() == added.(tiles := added.tiles[id := PaneTile(Hist2(fresh2.(xColumn := xColumn, yColumn := yColumn)))])
    {
      ghost var t0 := tiles;
      ghost var had := HasPane(tiles, TwoD, name);
      ghost var paneId;
      paneId, gridId := AddHist2D(name, bins, range, grid);
      if had {
        PaneIdUnique(t0, paneId, TwoD, name);
      }
      added := Snapshot();
      PaneIdUnique(tiles, paneId, TwoD, name);
      var _ := FillHist2D(name, frame, xColumn, yColumn);
      PaneIdUnique(tiles, paneId, TwoD, name);
    }

    /**
     * The k-th fill thread runs to completion: it collects the filtered
     * data, fills the histogram it shares with its pane row by row, clears
     * the progress and is then finished. A thread whose data cannot be
     * collected leaves the histogram as it was.
     */
    method RunThread(k: nat)
      requires Valid()
      requires k < |handles|
      modifies this`tiles, this`handles
      ensures Valid()
      ensures old(handles[k].finished) ==> tiles == old(tiles) && handles == old(handles)
      ensures !old(handles[k].finished) ==>
        && handles == old(handles)[k := old(handles[k]).(finished := true)]
        && tiles == AfterJob(old(tiles), old(handles[k].job))
    {
      var handle := handles[k];
      if handle.finished {
        return;
      }
      match handle.job {
        case Fill1D(p, range, frame, column) =>
          var data := Collect(frame, column, range);
          if data.Some? && p in tiles && tiles[p].PaneTile? && tiles[p].pane.Hist? {
            var h := FillWorker(tiles[p].pane.h1, data.value);
            UniqueAfterReplace(tiles, p, PaneTile(Hist(h)));
            tiles := tiles[p := PaneTile(Hist(h))];
          }
        case Fill2D(p, range, frame, xColumn, yColumn) =>
          var data := Collect2D(frame, xColumn, yColumn, range);
          if data.Some? && p in tiles && tiles[p].PaneTile? && tiles[p].pane.Hist2? {
            ZipSplit(data.value);
            var h := FillWorker2D(tiles[p].pane.h2, Firsts(data.value), Seconds(data.value));
            UniqueAfterReplace(tiles, p, PaneTile(Hist2(h)));
            tiles := tiles[p := PaneTile(Hist2(h))];
          }
      }
      handles := handles[k := handle.(finished := true)];
    }
  }
}

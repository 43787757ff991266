/**
  Opening a dataset and materializing the units upstream of an outlet.  The referential
  validation at open time is what makes the checks of the later stages unreachable.
 */
module Dataset {
  import opened Prelude
  import opened Upstream

  datatype OutletCoord = OutletCoord(lon: real, lat: real)

  /** One catchment row; `geometry` is `None` when its encoding is corrupt. */
  datatype Catchment = Catchment(id: UnitId, level: Level, area: real, upstreamArea: Option<real>, outlet: OutletCoord,
                                 geometry: Option<int>)

  datatype IntegrityError =
    | UnitCountMismatch
    | RowCountMismatch
    | NoCatchmentRow(id: UnitId)
    | LevelDiffers(id: UnitId)
    | UpstreamWithoutCatchment(id: UnitId, up: UnitId)
    | EdgeCrossesLevels(id: UnitId, up: UnitId)
    | NoGraphRow(id: UnitId)

  /** The catchment store refuses repeated identifiers when it is opened. */
  predicate UniqueIds(rows: seq<Catchment>) {
    forall i, j :: 0 <= i < j < |rows| ==> rows[i].id != rows[j].id
  }

  function Ids(rows: seq<Catchment>): set<UnitId> {
    set row | row in rows :: row.id
  }

  ghost predicate HasLevel(rows: seq<Catchment>, id: UnitId, level: Level) {
    exists row :: row in rows && row.id == id && row.level == level
  }

  // ---- Referential validation ---------------------------------------------------------

  ghost predicate RowAgrees(rows: seq<Catchment>, row: AdjacencyRow) {
    HasLevel(rows, row.id, row.level) && forall up :: up in row.upstreamIds ==> HasLevel(rows, up, row.level)
  }

  /** Graph and catchments name the same units with the same levels, and edges stay inside a level. */
  ghost predicate Consistent(unitCount: nat, g: Graph, rows: seq<Catchment>)
    requires g.Valid()
  {
    && unitCount == |rows| == |g.rows|
    && (forall row :: row in g.rows ==> RowAgrees(rows, row))
    && (forall row :: row in rows ==> g.Has(row.id))
  }

  /** What an error says about one row of the graph. */
  ghost predicate RowRefuted(rows: seq<Catchment>, row: AdjacencyRow, error: IntegrityError) {
    match error
    case NoCatchmentRow(id) => id == row.id && id !in Ids(rows)
    case LevelDiffers(id) => id == row.id && id in Ids(rows) && !HasLevel(rows, id, row.level)
    case UpstreamWithoutCatchment(id, up) => id == row.id && up in row.upstreamIds && up !in Ids(rows)
    case EdgeCrossesLevels(id, up) =>
      && id == row.id && HasLevel(rows, id, row.level)
      && up in row.upstreamIds && up in Ids(rows) && !HasLevel(rows, up, row.level)
    case _ => false
  }

  /** What an error says about graph and catchments. */
  ghost predicate Refuted(unitCount: nat, g: Graph, rows: seq<Catchment>, error: IntegrityError)
    requires g.Valid()
  {
    match error
    case UnitCountMismatch => unitCount != |rows|
    case RowCountMismatch => unitCount == |rows| != |g.rows|
    case NoGraphRow(id) => id in Ids(rows) && !g.Has(id)
    case _ => exists row :: row in g.rows && RowRefuted(rows, row, error)
  }

  /** The identifier-to-level table built from the catchment rows. */
  method LevelTable(rows: seq<Catchment>) returns (levels: map<UnitId, Level>)
    requires UniqueIds(rows)
    ensures levels.Keys == Ids(rows)
    ensures forall row :: row in rows ==> row.id in levels && levels[row.id] == row.level
  {
    levels := map[];
    for i := 0 to |rows|
      invariant levels.Keys == Ids(rows[..i])
      invariant forall j :: 0 <= j < i ==> rows[j].id in levels && levels[rows[j].id] == rows[j].level
    {
      assert rows[..i + 1] == rows[..i] + [rows[i]];
      levels := levels[rows[i].id := rows[i].level];
    }
    assert rows[..|rows|] == rows;
  }

  lemma TableLookup(rows: seq<Catchment>, levels: map<UnitId, Level>, id: UnitId, level: Level)
    requires UniqueIds(rows) && levels.Keys == Ids(rows)
    requires forall row :: row in rows ==> row.id in levels && levels[row.id] == row.level
    ensures HasLevel(rows, id, level) <==> id in levels && levels[id] == level
  {
    if id in levels {
      var row :| row in rows && row.id == id;
    }
  }

  /** Check one adjacency row against the catchments. */
  method ValidateRow(rows: seq<Catchment>, levels: map<UnitId, Level>, row: AdjacencyRow)
    returns (failed: Option<IntegrityError>)
    requires UniqueIds(rows) && levels.Keys == Ids(rows)
    requires forall row :: row in rows ==> row.id in levels && levels[row.id] == row.level
    ensures failed.None? <==> RowAgrees(rows, row)
    ensures failed.Some? ==> RowRefuted(rows, row, failed.value)
  {
    TableLookup(rows, levels, row.id, row.level);
    if row.id !in levels {
      return Some(NoCatchmentRow(row.id));
    }
    if levels[row.id] != row.level {
      return Some(LevelDiffers(row.id));
    }
    for k := 0 to |row.upstreamIds|
      invariant forall j :: 0 <= j < k ==> HasLevel(rows, row.upstreamIds[j], row.level)
    {
      var up := row.upstreamIds[k];
      TableLookup(rows, levels, up, row.level);
      if up !in levels {
        return Some(UpstreamWithoutCatchment(row.id, up));
      }
      if levels[up] != row.level {
        return Some(EdgeCrossesLevels(row.id, up));
      }
    }
    return None;
  }

  /** `validate_graph_catchments` succeeds exactly on consistent datasets, and its errors are true of the others. */
  method ValidateGraphCatchments(unitCount: nat, g: Graph, rows: seq<Catchment>)
    returns (r: Result<map<UnitId, Level>, IntegrityError>)
    requires g.Valid() && UniqueIds(rows)
    ensures r.Success? <==> Consistent(unitCount, g, rows)
    ensures r.Failure? ==> Refuted(unitCount, g, rows, r.error)
    ensures r.Success? ==> forall id, level :: HasLevel(rows, id, level) <==> id in r.value && r.value[id] == level
  {
    if unitCount != |rows| {
      return Failure(UnitCountMismatch);
    }
    var levels := LevelTable(rows);
    if |g.rows| != |rows| {
      return Failure(RowCountMismatch);
    }
    for i := 0 to |g.rows|
      invariant forall j :: 0 <= j < i ==> RowAgrees(rows, g.rows[j])
    {
      var failed := ValidateRow(rows, levels, g.rows[i]);
      if failed.Some? {
        return Failure(failed.value);
      }
    }
    for i := 0 to |rows|
      invariant forall j :: 0 <= j < i ==> g.Has(rows[j].id)
    {
      if !g.Has(rows[i].id) {
        return Failure(NoGraphRow(rows[i].id));
      }
    }
    forall id, level ensures HasLevel(rows, id, level) <==> id in levels && levels[id] == level {
      TableLookup(rows, levels, id, level);
    }
    return Success(levels);
  }

  // ---- Traversal at one level ---------------------------------------------------------

  /** `DatasetSession::level_of`. */
  function LevelOf(g: Graph, id: UnitId): Option<Level>
    requires g.Valid()
  {
    if g.Has(id) then Some(g.Get(id).level) else None
  }

  datatype EngineError =
    | Traversal(error: TraversalError)
    | SameLevelInvariant(id: UnitId)
    | MissingMetadata(id: UnitId)
    | MissingGeometry(id: UnitId)
    | GeometryDecode(id: UnitId)

  /** What a failed traversal says about the graph. */
  ghost predicate Explains(g: Graph, terminal: UnitId, selected: Level, error: EngineError)
    requires g.Valid()
  {
    match error
    case Traversal(TerminalNotFound) => !g.Has(terminal)
    case Traversal(DanglingUpstreamRef(source, target)) =>
      DrainsTo(g, terminal, source) && g.Has(source) && target in g.Get(source).upstreamIds && !g.Has(target)
    case SameLevelInvariant(id) => DrainsTo(g, terminal, id) && LevelOf(g, id) != Some(selected)
    case _ => false
  }

  /** `traverse_upstream_at_level`. */
  method TraverseUpstreamAtLevel(g: Graph, terminal: UnitId, selected: Level)
    returns (r: Result<UpstreamUnits, EngineError>)
    requires g.Valid()
    ensures r.Success? ==>
              && |r.value.units| > 0 && r.value.units[0] == terminal
              && IsTree(g, terminal, r.value.units, r.value.downstream)
              && (forall id :: id in r.value.downstream ==> id in r.value.units)
              && (forall id :: id in r.value.units <==> DrainsTo(g, terminal, id))
              && (forall id :: id in r.value.units ==> LevelOf(g, id) == Some(selected))
    ensures r.Failure? ==> Explains(g, terminal, selected, r.error)
  {
    var collected := CollectUpstream(g, terminal);
    if collected.Failure? {
      return Failure(Traversal(collected.error));
    }
    var upstream := collected.value;
    var other := FindOtherLevel(g, upstream.units, selected);
    if other.Some? {
      return Failure(SameLevelInvariant(other.value));
    }
    return Success(upstream);
  }

  /** The first of the units that is not at the level. */
  method FindOtherLevel(g: Graph, units: seq<UnitId>, selected: Level) returns (other: Option<UnitId>)
    requires g.Valid()
    ensures other.Some? ==> other.value in units && LevelOf(g, other.value) != Some(selected)
    ensures other.None? ==> forall id :: id in units ==> LevelOf(g, id) == Some(selected)
  {
    for i := 0 to |units|
      invariant forall j :: 0 <= j < i ==> LevelOf(g, units[j]) == Some(selected)
    {
      if LevelOf(g, units[i]) != Some(selected) {
        return Some(units[i]);
      }
    }
    return None;
  }

  /** In a consistent dataset everything that drains to a terminal has a catchment at the terminal's level. */
  lemma ClosureStaysAtLevel(unitCount: nat, g: Graph, rows: seq<Catchment>, terminal: UnitId, selected: Level,
                            id: UnitId)
    requires g.Valid() && UniqueIds(rows) && Consistent(unitCount, g, rows)
    requires LevelOf(g, terminal) == Some(selected) && DrainsTo(g, terminal, id)
    ensures LevelOf(g, id) == Some(selected) && HasLevel(rows, id, selected)
  {
    var atLevel := set row | row in rows && row.level == selected :: row.id;
    forall u, up | u in atLevel && g.Has(u) && up in g.Get(u).upstreamIds ensures up in atLevel {
      GraphLevel(unitCount, g, rows, u, selected);
      assert HasLevel(rows, up, selected);
    }
    assert HasLevel(rows, terminal, selected);
    assert id in atLevel;
    GraphLevel(unitCount, g, rows, id, selected);
  }

  /** Graph and catchments agree on the level of a unit. */
  lemma GraphLevel(unitCount: nat, g: Graph, rows: seq<Catchment>, id: UnitId, level: Level)
    requires g.Valid() && UniqueIds(rows) && Consistent(unitCount, g, rows)
    ensures HasLevel(rows, id, level) <==> LevelOf(g, id) == Some(level)
  {
    if g.Has(id) {
      assert RowAgrees(rows, g.Get(id));
    }
  }

  /** After validation no error of the traversal has an explanation: it cannot fail. */
  lemma ValidatedTraversalSucceeds(unitCount: nat, g: Graph, rows: seq<Catchment>, terminal: UnitId, selected: Level,
                                   error: EngineError)
    requires g.Valid() && UniqueIds(rows) && Consistent(unitCount, g, rows) && LevelOf(g, terminal) == Some(selected)
    ensures !Explains(g, terminal, selected, error)
  {
    match error
    case Traversal(TerminalNotFound) =>
    case Traversal(DanglingUpstreamRef(source, target)) =>
      if g.Has(source) && target in g.Get(source).upstreamIds {
        assert RowAgrees(rows, g.Get(source));
        GraphLevel(unitCount, g, rows, target, g.Get(source).level);
      }
    case SameLevelInvariant(id) =>
      if DrainsTo(g, terminal, id) {
        ClosureStaysAtLevel(unitCount, g, rows, terminal, selected, id);
      }
    case _ =>
  }

  // ---- Pre-merge records --------------------------------------------------------------

  /** `query_by_ids`: the rows with the requested identifiers, in file order. */
  function QueryByIds(rows: seq<Catchment>, ids: seq<UnitId>): (r: seq<Catchment>)
    ensures forall row :: row in r <==> row in rows && row.id in ids
  {
    if rows == [] then []
    else
      var front := QueryByIds(rows[..|rows| - 1], ids);
      var last := rows[|rows| - 1];
      assert forall row :: row in rows <==> row in rows[..|rows| - 1] || row == last;
      if last.id in ids then front + [last] else front
  }

  datatype PreMergeUnit = PreMergeUnit(id: UnitId, level: Level, area: real, upstreamArea: Option<real>,
                                       outlet: OutletCoord, geometry: int)

  /** The record made of a catchment row. */
  predicate RecordOf(rows: seq<Catchment>, id: UnitId, selected: Level, unit: PreMergeUnit) {
    exists row :: row in rows && row.id == id == unit.id && row.level == selected == unit.level
                  && row.area == unit.area && row.upstreamArea == unit.upstreamArea && row.outlet == unit.outlet
                  && row.geometry == Some(unit.geometry)
  }

  /** Rows by identifier; every queried geometry must decode. */
  method GeometryTable(rows: seq<Catchment>) returns (r: Result<map<UnitId, int>, EngineError>)
    requires UniqueIds(rows)
    ensures r.Failure? <==> exists row :: row in rows && row.geometry.None?
    ensures r.Failure? ==> r.error.GeometryDecode?
    ensures r.Success? ==> forall row :: row in rows ==> row.id in r.value && row.geometry == Some(r.value[row.id])
  {
    var table: map<UnitId, int> := map[];
    for i := 0 to |rows|
      invariant forall j :: 0 <= j < i ==> rows[j].geometry.Some?
      invariant forall j :: 0 <= j < i ==> rows[j].id in table && rows[j].geometry == Some(table[rows[j].id])
    {
      if rows[i].geometry.None? {
        return Failure(GeometryDecode(rows[i].id));
      }
      table := table[rows[i].id := rows[i].geometry.value];
    }
    return Success(table);
  }

  method MetadataTable(rows: seq<Catchment>) returns (table: map<UnitId, Catchment>)
    requires UniqueIds(rows)
    ensures forall id :: id in table ==> table[id] in rows && table[id].id == id
    ensures forall row :: row in rows ==> row.id in table && table[row.id] == row
  {
    table := map[];
    for i := 0 to |rows|
      invariant forall id :: id in table ==> table[id] in rows[..i] && table[id].id == id
      invariant forall j :: 0 <= j < i ==> rows[j].id in table && table[rows[j].id] == rows[j]
    {
      table := table[rows[i].id := rows[i]];
    }
  }

  /** Requested identifiers that each have one row, at the selected level, with a geometry. */
  ghost predicate Materializable(rows: seq<Catchment>, ids: seq<UnitId>, selected: Level) {
    && Distinct(ids)
    && (forall id :: id in ids ==> HasLevel(rows, id, selected))
    && (forall row :: row in rows && row.id in ids ==> row.geometry.Some?)
  }

  lemma {:induction false} QueryKeepsUnique(rows: seq<Catchment>, ids: seq<UnitId>)
    requires UniqueIds(rows)
    ensures UniqueIds(QueryByIds(rows, ids))
  {
    if rows != [] {
      QueryKeepsUnique(rows[..|rows| - 1], ids);
      forall row | row in QueryByIds(rows[..|rows| - 1], ids) ensures row.id != rows[|rows| - 1].id {
        assert row in rows[..|rows| - 1];
      }
    }
  }

  /** The tables built from the queried rows hold what the loop below looks up. */
  ghost predicate Tables(rows: seq<Catchment>, ids: seq<UnitId>, metadata: map<UnitId, Catchment>,
                         geometry: map<UnitId, int>) {
    && (forall id :: id in metadata ==> metadata[id] in rows && metadata[id].id == id)
    && (forall row :: row in rows && row.id in ids ==> row.id in metadata && metadata[row.id] == row)
    && (forall id :: id in metadata ==> id in geometry && metadata[id].geometry == Some(geometry[id]))
  }

  lemma TablesHold(rows: seq<Catchment>, ids: seq<UnitId>, metadata: map<UnitId, Catchment>, geometry: map<UnitId, int>)
    requires forall id :: id in metadata ==> metadata[id] in QueryByIds(rows, ids) && metadata[id].id == id
    requires forall row :: row in QueryByIds(rows, ids) ==> row.id in metadata && metadata[row.id] == row
    requires forall row :: row in QueryByIds(rows, ids) ==> row.id in geometry && row.geometry == Some(geometry[row.id])
    ensures Tables(rows, ids, metadata, geometry)
  {
  }

  lemma CorruptGeometry(rows: seq<Catchment>, ids: seq<UnitId>, selected: Level)
    requires exists row :: row in QueryByIds(rows, ids) && row.geometry.None?
    ensures !Materializable(rows, ids, selected)
  {
    var row :| row in QueryByIds(rows, ids) && row.geometry.None?;
    assert row in rows && row.id in ids;
  }

  /** A requested unit whose row is missing or at another level cannot be materialized. */
  lemma NoRecord(rows: seq<Catchment>, ids: seq<UnitId>, metadata: map<UnitId, Catchment>, geometry: map<UnitId, int>,
                 selected: Level, id: UnitId)
    requires UniqueIds(rows) && Tables(rows, ids, metadata, geometry) && id in ids
    requires id !in metadata || metadata[id].level != selected
    ensures !Materializable(rows, ids, selected)
  {
  }

  /** The geometries not handed out yet: all but those of the units done. */
  ghost predicate Remaining(geometry: map<UnitId, int>, left: map<UnitId, int>, done: seq<UnitId>) {
    && (forall id :: id in left <==> id in geometry && id !in done)
    && (forall id :: id in left ==> left[id] == geometry[id])
  }

  /** The record of one unit, while its geometry has not been handed out. */
  method MakeRecord(rows: seq<Catchment>, ids: seq<UnitId>, metadata: map<UnitId, Catchment>,
                    ghost geometry: map<UnitId, int>,
                    left: map<UnitId, int>, ghost done: seq<UnitId>, id: UnitId, selected: Level)
    returns (r: Result<PreMergeUnit, EngineError>)
    requires UniqueIds(rows) && Tables(rows, ids, metadata, geometry) && Remaining(geometry, left, done) && id in ids
    ensures r.Success? ==> id !in done && HasLevel(rows, id, selected) && RecordOf(rows, id, selected, r.value)
    ensures r.Failure? ==> id in done || !Materializable(rows, ids, selected)
  {
    if id !in metadata {
      NoRecord(rows, ids, metadata, geometry, selected, id);
      return Failure(MissingMetadata(id));
    }
    var row := metadata[id];
    if row.level != selected {
      NoRecord(rows, ids, metadata, geometry, selected, id);
      return Failure(SameLevelInvariant(id));
    }
    if id !in left {
      return Failure(MissingGeometry(id));
    }
    return Success(PreMergeUnit(id, row.level, row.area, row.upstreamArea, row.outlet, left[id]));
  }

  /** The units done so far: one record each, in order. */
  ghost predicate Recorded(rows: seq<Catchment>, done: seq<UnitId>, selected: Level, units: seq<PreMergeUnit>) {
    && |units| == |done| && Distinct(done)
    && forall j :: 0 <= j < |done| ==> HasLevel(rows, done[j], selected) && RecordOf(rows, done[j], selected, units[j])
  }

  /**
    `produce_pre_merge_units`: one record for each requested unit, in order, made of its
    catchment row; it succeeds exactly when every unit has one at the selected level.
   */
  method ProducePreMergeUnits(rows: seq<Catchment>, ids: seq<UnitId>, selected: Level)
    returns (r: Result<seq<PreMergeUnit>, EngineError>)
    requires UniqueIds(rows)
    ensures r.Success? <==> Materializable(rows, ids, selected)
    ensures r.Success? ==> |r.value| == |ids| && forall k :: 0 <= k < |ids| ==>
              RecordOf(rows, ids[k], selected, r.value[k])
  {
    var queried := QueryByIds(rows, ids);
    QueryKeepsUnique(rows, ids);
    var metadata := MetadataTable(queried);
    var decoded := GeometryTable(queried);
    if decoded.Failure? {
      CorruptGeometry(rows, ids, selected);
      return Failure(decoded.error);
    }
    TablesHold(rows, ids, metadata, decoded.value);
    r := RecordUnits(rows, ids, metadata, decoded.value, selected);
    if r.Success? {
      AllRecorded(rows, ids, selected, r.value, queried);
    }
  }

  /** The loop over the requested units: each takes its row and its geometry out of the tables. */
  method RecordUnits(rows: seq<Catchment>, ids: seq<UnitId>, metadata: map<UnitId, Catchment>,
                     geometry: map<UnitId, int>, selected: Level)
    returns (r: Result<seq<PreMergeUnit>, EngineError>)
    requires UniqueIds(rows) && Tables(rows, ids, metadata, geometry)
    ensures r.Success? ==> Recorded(rows, ids, selected, r.value)
    ensures r.Failure? ==> !Materializable(rows, ids, selected)
  {
    var left := geometry;
    var units: seq<PreMergeUnit> := [];
    for k := 0 to |ids|
      invariant Recorded(rows, ids[..k], selected, units)
      invariant Remaining(geometry, left, ids[..k])
    {
      var record := MakeRecord(rows, ids, metadata, geometry, left, ids[..k], ids[k], selected);
      if record.Failure? {
        RepeatedUnit(ids, k);
        return Failure(record.error);
      }
      units := units + [record.value];
      left := left - {ids[k]};
      assert ids[..k + 1] == ids[..k] + [ids[k]];
    }
    assert ids[..|ids|] == ids;
    return Success(units);
  }

  lemma RepeatedUnit(ids: seq<UnitId>, k: nat)
    requires k < |ids|
    ensures ids[k] in ids[..k] ==> !Distinct(ids)
  {
  }

  lemma AllRecorded(rows: seq<Catchment>, ids: seq<UnitId>, selected: Level, units: seq<PreMergeUnit>,
                    queried: seq<Catchment>)
    requires Recorded(rows, ids, selected, units)
    requires queried == QueryByIds(rows, ids) && forall row :: row in queried ==> row.geometry.Some?
    ensures Materializable(rows, ids, selected)
  {
    forall row | row in rows && row.id in ids ensures row.geometry.Some? {
      assert row in queried;
    }
  }

  /** After validation, a traversal's units can all be materialized as soon as their geometries decode. */
  lemma ValidatedUnitsMaterialize(unitCount: nat, g: Graph, rows: seq<Catchment>, terminal: UnitId, selected: Level,
                                  ids: seq<UnitId>)
    requires g.Valid() && UniqueIds(rows) && Consistent(unitCount, g, rows) && LevelOf(g, terminal) == Some(selected)
    requires Distinct(ids) && forall id :: id in ids <==> DrainsTo(g, terminal, id)
    ensures Materializable(rows, ids, selected) <==> forall row :: row in rows && row.id in ids ==> row.geometry.Some?
  {
    forall id | id in ids ensures HasLevel(rows, id, selected) {
      ClosureStaysAtLevel(unitCount, g, rows, terminal, selected, id);
    }
  }
}

/** The metadata step: the LocustHub sightings kept for the region, the
    tile table read from the names of the downloaded archives, and the
    labelling join that marks a tile positive when a sighting lies in or
    near its cell during the 30 days that start at the sighting. */
module Metadata {
  import opened Text
  import TileNames

  /** A geohash cell of precision 5. */
  type Cell = string

  /** A point in time, in seconds. */
  type Instant = int

  const Day: int := 24 * 60 * 60

  /** `timedelta(days=30)`: the length of the window that a sighting opens. */
  const Window: int := 30 * Day

  /** Sightings whose raw start date does not compare above this string are dropped. */
  const StartThreshold := "2016-01-01"

  /** A row of the LocustHub extract. Its cell (`geohash.encode` of Y and X)
      and its parsed date (`pd.to_datetime` of STARTDATE) come from foreign
      code and are given. */
  datatype HubRecord = HubRecord(startDate: string, y: real, x: real, gh: Cell, date: Instant)

  /** A row of the cleaned extract: the columns gh, Y, X and date. */
  datatype Sighting = Sighting(gh: Cell, y: real, x: real, date: Instant)

  // ---------------------------------------------------------------------
  // The filter of get_locusthub_df
  // ---------------------------------------------------------------------

  /** A record survives when its raw start date compares strictly above the
      threshold as a string and its cell lies in the region. */
  predicate Kept(rec: HubRecord, region: set<Cell>): (kept: bool)
    ensures kept ==> rec.gh in region && rec.startDate != StartThreshold
  {
    LexLessIrreflexive(StartThreshold);
    LexLess(StartThreshold, rec.startDate) && rec.gh in region
  }

  function Project(rec: HubRecord): Sighting
  {
    Sighting(rec.gh, rec.y, rec.x, rec.date)
  }

  /** The kept records, projected, in their original order. */
  function HubFilter(records: seq<HubRecord>, region: set<Cell>): (r: seq<Sighting>)
    ensures |r| <= |records|
    ensures forall s :: s in r ==> s.gh in region
  {
    if records == [] then []
    else
      var last := records[|records| - 1];
      HubFilter(records[..|records| - 1], region) + (if Kept(last, region) then [Project(last)] else [])
  }

  /** The positions of the kept records, in increasing order. */
  function KeptPositions(records: seq<HubRecord>, region: set<Cell>): (idx: seq<nat>)
    ensures forall k :: 0 <= k < |idx| ==> idx[k] < |records|
  {
    if records == [] then []
    else
      var n := |records| - 1;
      KeptPositions(records[..n], region) + (if Kept(records[n], region) then [n] else [])
  }

  lemma {:induction false} KeptPositionsProject(records: seq<HubRecord>, region: set<Cell>)
    ensures |KeptPositions(records, region)| == |HubFilter(records, region)|
    ensures forall k :: 0 <= k < |KeptPositions(records, region)| ==>
      HubFilter(records, region)[k] == Project(records[KeptPositions(records, region)[k]])
  {
    if records != [] {
      var n := |records| - 1;
      var front := records[..n];
      KeptPositionsProject(front, region);
      var idx, r := KeptPositions(records, region), HubFilter(records, region);
      var idx', r' := KeptPositions(front, region), HubFilter(front, region);
      forall k | 0 <= k < |idx|
        ensures r[k] == Project(records[idx[k]])
      {
        if k < |idx'| {
          assert idx[k] == idx'[k] && r[k] == r'[k];
          assert records[idx'[k]] == front[idx'[k]];
        }
      }
    }
  }

  lemma {:induction false} KeptPositionsIncrease(records: seq<HubRecord>, region: set<Cell>)
    ensures forall k, l :: 0 <= k < l < |KeptPositions(records, region)| ==>
      KeptPositions(records, region)[k] < KeptPositions(records, region)[l]
  {
    if records != [] {
      var n := |records| - 1;
      KeptPositionsIncrease(records[..n], region);
      var idx, idx' := KeptPositions(records, region), KeptPositions(records[..n], region);
      forall k, l | 0 <= k < l < |idx|
        ensures idx[k] < idx[l]
      {
        assert idx[k] == idx'[k];
        if l < |idx'| {
          assert idx[l] == idx'[l];
        }
      }
    }
  }

  lemma {:induction false} KeptPositionsExact(records: seq<HubRecord>, region: set<Cell>)
    ensures forall i :: 0 <= i < |records| ==> (Kept(records[i], region) <==> i in KeptPositions(records, region))
  {
    if records != [] {
      var n := |records| - 1;
      var front := records[..n];
      KeptPositionsExact(front, region);
      var idx' := KeptPositions(front, region);
      forall i | 0 <= i < |records|
        ensures Kept(records[i], region) <==> i in KeptPositions(records, region)
      {
        if i < n {
          assert records[i] == front[i];
          assert n !in idx';
        }
      }
    }
  }

  /** The filter keeps exactly the records that satisfy both conditions, and
      keeps them in order: the result is the projection of the records at an
      increasing run of positions, which are the positions of kept records. */
  lemma HubFilterSelects(records: seq<HubRecord>, region: set<Cell>) returns (idx: seq<nat>)
    ensures |idx| == |HubFilter(records, region)|
    ensures forall k :: 0 <= k < |idx| ==> idx[k] < |records| && HubFilter(records, region)[k] == Project(records[idx[k]])
    ensures forall k, l :: 0 <= k < l < |idx| ==> idx[k] < idx[l]
    ensures forall i :: 0 <= i < |records| ==> (Kept(records[i], region) <==> i in idx)
  {
    idx := KeptPositions(records, region);
    KeptPositionsProject(records, region);
    KeptPositionsIncrease(records, region);
    KeptPositionsExact(records, region);
  }

  /** A sighting dated exactly on the threshold day, written as the bare
      date, is dropped: the comparison is strict. */
  lemma ThresholdDayDropped(rec: HubRecord, region: set<Cell>)
    requires rec.startDate == StartThreshold
    ensures !Kept(rec, region)
  {
    LexLessIrreflexive(StartThreshold);
  }

  /** A start date that extends the threshold string, such as the threshold
      day with a time of day, compares above it and is kept. */
  lemma ThresholdDayWithTimeKept(rec: HubRecord, region: set<Cell>, time: string)
    requires rec.startDate == StartThreshold + time && time != []
    requires rec.gh in region
    ensures Kept(rec, region)
  {
    LexLessExtension(StartThreshold, time);
  }

  // ---------------------------------------------------------------------
  // get_tile_meta
  // ---------------------------------------------------------------------

  /** The two string columns `geohash` and `date` of the tile table. */
  datatype TileMeta = TileMeta(geohash: seq<string>, date: seq<string>)

  /** The table `get_tile_meta` builds from the entries: one row per entry,
      in listing order, or the error of the first entry whose name does not
      cut into two parts. */
  function TileRows(entries: seq<string>): (r: Result<TileMeta>)
    ensures r.Ok? ==> |r.value.geohash| == |entries| && |r.value.date| == |entries|
  {
    if entries == [] then Ok(TileMeta([], []))
    else
      match TileRows(entries[..|entries| - 1])
      case Err(e) => Err(e)
      case Ok(rows) =>
        match TileNames.SplitStem(entries[|entries| - 1])
        case Err(e) => Err(e)
        case Ok(key) => Ok(TileMeta(rows.geohash + [key.head], rows.date + [key.tail]))
  }

  /** `get_tile_meta`: the loop that appends the two halves of each name. */
  method GetTileMeta(entries: seq<string>) returns (r: Result<TileMeta>)
    ensures r == TileRows(entries)
  {
    var geohashes: seq<string> := [];
    var dates: seq<string> := [];
    for i := 0 to |entries|
      invariant TileRows(entries[..i]) == Ok(TileMeta(geohashes, dates))
    {
      assert entries[..i + 1][..i] == entries[..i];
      var key := TileNames.SplitStem(entries[i]);
      if key.Err? {
        TileRowsErrorStays(entries, i + 1);
        return Err(key.error);
      }
      geohashes := geohashes + [key.value.head];
      dates := dates + [key.value.tail];
    }
    assert entries[..|entries|] == entries;
    return Ok(TileMeta(geohashes, dates));
  }

  /** Once a prefix of the listing raises, the whole listing raises the same
      error: later entries are never looked at. */
  lemma {:induction false} TileRowsErrorStays(entries: seq<string>, k: nat)
    requires k <= |entries| && TileRows(entries[..k]).Err?
    ensures TileRows(entries) == TileRows(entries[..k])
    decreases |entries| - k
  {
    if k < |entries| {
      var n := |entries| - 1;
      assert entries[..n][..k] == entries[..k];
      TileRowsErrorStays(entries[..n], k);
    } else {
      assert entries[..k] == entries;
    }
  }

  /** The table can be built exactly when every name cuts. */
  lemma {:induction false} TileRowsOk(entries: seq<string>)
    ensures TileRows(entries).Ok? <==> forall i :: 0 <= i < |entries| ==> TileNames.SplitStem(entries[i]).Ok?
  {
    if entries != [] {
      var n := |entries| - 1;
      var front := entries[..n];
      TileRowsOk(front);
      assert forall i :: 0 <= i < n ==> entries[i] == front[i];
    }
  }

  /** The table has one row per entry, each row the two halves of that
      entry's name as `TileNames.SplitStem` cuts it. */
  lemma {:induction false} TileRowsCells(entries: seq<string>)
    requires TileRows(entries).Ok?
    ensures |TileRows(entries).value.geohash| == |entries|
    ensures |TileRows(entries).value.date| == |entries|
    ensures forall i :: 0 <= i < |entries| ==>
      TileNames.SplitStem(entries[i]) == Ok(TileNames.TileKey(TileRows(entries).value.geohash[i], TileRows(entries).value.date[i]))
  {
    if entries != [] {
      var n := |entries| - 1;
      var front := entries[..n];
      TileRowsCells(front);
      var rows, key := TileRows(front).value, TileNames.SplitStem(entries[n]).value;
      var r := TileRows(entries).value;
      assert r.geohash == rows.geohash + [key.head] && r.date == rows.date + [key.tail];
      assert forall i :: 0 <= i < n ==> entries[i] == front[i];
    }
  }

  /** When the table cannot be built, the error is that of the first entry
      whose name does not cut. */
  lemma {:induction false} TileRowsErr(entries: seq<string>)
    ensures TileRows(entries).Err? ==>
      exists i :: 0 <= i < |entries| && TileNames.SplitStem(entries[i]) == Err(TileRows(entries).error)
        && forall j :: 0 <= j < i ==> TileNames.SplitStem(entries[j]).Ok?
  {
    if entries != [] {
      var n := |entries| - 1;
      var front := entries[..n];
      TileRowsErr(front);
      if TileRows(front).Err? {
        var i :| 0 <= i < n && TileNames.SplitStem(front[i]) == Err(TileRows(front).error)
          && forall j :: 0 <= j < i ==> TileNames.SplitStem(front[j]).Ok?;
        assert forall j :: 0 <= j <= i ==> entries[j] == front[j];
      } else {
        TileRowsOk(front);
        assert forall j :: 0 <= j < n ==> entries[j] == front[j];
      }
    }
  }

  // ---------------------------------------------------------------------
  // get_labels
  // ---------------------------------------------------------------------

  /** The cells that `geohash.expand` gives for some cell of `cells`. */
  function Expanded(cells: set<Cell>, expand: Cell -> seq<Cell>): set<Cell>
  {
    set g, c | g in cells && c in expand(g) :: c
  }

  /** The cell set of a sighting at `cell` after `n` rounds of expansion:
      each round adds the expansion of every cell already in the set. */
  function Ring(cell: Cell, n: nat, expand: Cell -> seq<Cell>): (cells: set<Cell>)
    ensures cell in cells
  {
    if n == 0 then {cell}
    else
      var inner := Ring(cell, n - 1, expand);
      inner + Expanded(inner, expand)
  }

  /** More rounds of expansion never lose a cell. */
  lemma {:induction false} RingGrows(cell: Cell, m: nat, n: nat, expand: Cell -> seq<Cell>)
    requires m <= n
    ensures Ring(cell, m, expand) <= Ring(cell, n, expand)
  {
    if m < n {
      RingGrows(cell, m, n - 1, expand);
    }
  }

  /** The expansion of a set grown by one cell. */
  lemma ExpandedAddOne(cells: set<Cell>, g: Cell, expand: Cell -> seq<Cell>)
    ensures Expanded(cells + {g}, expand) == Expanded(cells, expand) + (set c | c in expand(g))
  {
  }

  /** The cell set of one sighting, built as the source builds it: the
      sighting's own cell, then `n` rounds in which every cell of a snapshot
      of the set adds its expansion. */
  method NeighbourCells(cell: Cell, n: nat, expand: Cell -> seq<Cell>) returns (gh: set<Cell>)
    ensures gh == Ring(cell, n, expand)
  {
    gh := {cell};
    if n > 0 {
      for round := 0 to n
        invariant gh == Ring(cell, round, expand)
      {
        var snapshot := gh;
        var todo := snapshot;
        while todo != {}
          invariant todo <= snapshot
          invariant gh == snapshot + Expanded(snapshot - todo, expand)
          decreases todo
        {
          var g :| g in todo;
          ExpandedAddOne(snapshot - todo, g, expand);
          assert snapshot - (todo - {g}) == (snapshot - todo) + {g};
          gh := gh + (set c | c in expand(g));
          todo := todo - {g};
        }
        assert snapshot - todo == snapshot;
      }
    }
  }

  /** Whether sighting `s` marks a tile of cell `cell` taken at `date`: the
      cell is in the sighting's cell set and the date lies in the half-open
      window of 30 days that starts at the sighting. */
  predicate Hit(s: Sighting, cell: Cell, date: Instant, n: nat, expand: Cell -> seq<Cell>): (hit: bool)
    ensures cell == s.gh && s.date <= date < s.date + Window ==> hit
  {
    cell in Ring(s.gh, n, expand) && s.date <= date < s.date + Window
  }

  /** Whether some sighting of the table marks the tile. */
  ghost predicate Marked(sightings: seq<Sighting>, cell: Cell, date: Instant, n: nat, expand: Cell -> seq<Cell>)
  {
    exists k :: 0 <= k < |sightings| && Hit(sightings[k], cell, date, n, expand)
  }

  /** The label column after the sightings have been processed one after
      the other: all zeros first, then each sighting sets the tiles it marks
      to 1 and leaves every other label as it was. */
  function Labels(geohash: seq<Cell>, date: seq<Instant>, sightings: seq<Sighting>, n: nat, expand: Cell -> seq<Cell>): (r: seq<int>)
    requires |geohash| == |date|
    ensures |r| == |geohash|
    ensures forall i :: 0 <= i < |r| ==> r[i] == 0 || r[i] == 1
    decreases |sightings|
  {
    if sightings == [] then seq(|geohash|, _ => 0)
    else
      var prev := Labels(geohash, date, sightings[..|sightings| - 1], n, expand);
      var s := sightings[|sightings| - 1];
      seq(|geohash|, i requires 0 <= i < |geohash| => if Hit(s, geohash[i], date[i], n, expand) then 1 else prev[i])
  }

  /** A tile ends with label 1 exactly when some sighting marks it, and with
      label 0 otherwise. */
  lemma {:induction false} LabelsMeaning(geohash: seq<Cell>, date: seq<Instant>, sightings: seq<Sighting>, n: nat, expand: Cell -> seq<Cell>, i: nat)
    requires |geohash| == |date| && i < |geohash|
    ensures Labels(geohash, date, sightings, n, expand)[i] == if Marked(sightings, geohash[i], date[i], n, expand) then 1 else 0
    decreases |sightings|
  {
    if sightings != [] {
      var front := sightings[..|sightings| - 1];
      var s := sightings[|sightings| - 1];
      LabelsMeaning(geohash, date, front, n, expand, i);
      if Marked(front, geohash[i], date[i], n, expand) {
        var k :| 0 <= k < |front| && Hit(front[k], geohash[i], date[i], n, expand);
        assert sightings[k] == front[k];
      }
      if Marked(sightings, geohash[i], date[i], n, expand) && !Hit(s, geohash[i], date[i], n, expand) {
        var k :| 0 <= k < |sightings| && Hit(sightings[k], geohash[i], date[i], n, expand);
        assert k < |front| && front[k] == sightings[k];
      }
    }
  }

  /** With no sightings every label is 0. */
  lemma NoSightingsNoLabels(geohash: seq<Cell>, date: seq<Instant>, n: nat, expand: Cell -> seq<Cell>)
    requires |geohash| == |date|
    ensures forall i :: 0 <= i < |geohash| ==> Labels(geohash, date, [], n, expand)[i] == 0
  {
  }

  /** The labels depend only on which sightings there are, not on their order
      or repetition. */
  lemma SightingOrderIrrelevant(geohash: seq<Cell>, date: seq<Instant>, s1: seq<Sighting>, s2: seq<Sighting>, n: nat, expand: Cell -> seq<Cell>)
    requires |geohash| == |date|
    requires forall s :: s in s1 <==> s in s2
    ensures Labels(geohash, date, s1, n, expand) == Labels(geohash, date, s2, n, expand)
  {
    forall i | 0 <= i < |geohash|
      ensures Labels(geohash, date, s1, n, expand)[i] == Labels(geohash, date, s2, n, expand)[i]
    {
      LabelsMeaning(geohash, date, s1, n, expand, i);
      LabelsMeaning(geohash, date, s2, n, expand, i);
      if Marked(s1, geohash[i], date[i], n, expand) {
        var k :| 0 <= k < |s1| && Hit(s1[k], geohash[i], date[i], n, expand);
        assert s1[k] in s2;
        var l :| 0 <= l < |s2| && s2[l] == s1[k];
      }
      if Marked(s2, geohash[i], date[i], n, expand) {
        var k :| 0 <= k < |s2| && Hit(s2[k], geohash[i], date[i], n, expand);
        assert s2[k] in s1;
        var l :| 0 <= l < |s1| && s1[l] == s2[k];
      }
    }
  }

  /** More sightings never turn a 1 into a 0. */
  lemma MoreSightingsKeepLabels(geohash: seq<Cell>, date: seq<Instant>, s1: seq<Sighting>, s2: seq<Sighting>, n: nat, expand: Cell -> seq<Cell>)
    requires |geohash| == |date|
    requires forall s :: s in s1 ==> s in s2
    ensures forall i :: 0 <= i < |geohash| && Labels(geohash, date, s1, n, expand)[i] == 1 ==> Labels(geohash, date, s2, n, expand)[i] == 1
  {
    forall i | 0 <= i < |geohash| && Labels(geohash, date, s1, n, expand)[i] == 1
      ensures Labels(geohash, date, s2, n, expand)[i] == 1
    {
      LabelsMeaning(geohash, date, s1, n, expand, i);
      LabelsMeaning(geohash, date, s2, n, expand, i);
      var k :| 0 <= k < |s1| && Hit(s1[k], geohash[i], date[i], n, expand);
      assert s1[k] in s2;
      var l :| 0 <= l < |s2| && s2[l] == s1[k];
    }
  }

  /** More rounds of expansion never turn a 1 into a 0. */
  lemma MoreExpansionKeepsLabels(geohash: seq<Cell>, date: seq<Instant>, sightings: seq<Sighting>, m: nat, n: nat, expand: Cell -> seq<Cell>)
    requires |geohash| == |date| && m <= n
    ensures forall i :: 0 <= i < |geohash| && Labels(geohash, date, sightings, m, expand)[i] == 1 ==> Labels(geohash, date, sightings, n, expand)[i] == 1
  {
    forall i | 0 <= i < |geohash| && Labels(geohash, date, sightings, m, expand)[i] == 1
      ensures Labels(geohash, date, sightings, n, expand)[i] == 1
    {
      LabelsMeaning(geohash, date, sightings, m, expand, i);
      LabelsMeaning(geohash, date, sightings, n, expand, i);
      var k :| 0 <= k < |sightings| && Hit(sightings[k], geohash[i], date[i], m, expand);
      RingGrows(sightings[k].gh, m, n, expand);
      assert Hit(sightings[k], geohash[i], date[i], n, expand);
    }
  }

  /** A sighting that marks no tile leaves the label column as it was. */
  lemma UnmatchedSightingNoOp(geohash: seq<Cell>, date: seq<Instant>, sightings: seq<Sighting>, s: Sighting, n: nat, expand: Cell -> seq<Cell>)
    requires |geohash| == |date|
    requires forall i :: 0 <= i < |geohash| ==> !Hit(s, geohash[i], date[i], n, expand)
    ensures Labels(geohash, date, sightings + [s], n, expand) == Labels(geohash, date, sightings, n, expand)
  {
    assert (sightings + [s])[..|sightings|] == sightings;
  }

  /** Without expansion only the sighting's own cell matches. */
  lemma NoExpansionExactCell(s: Sighting, cell: Cell, date: Instant, expand: Cell -> seq<Cell>)
    ensures Hit(s, cell, date, 0, expand) <==> cell == s.gh && s.date <= date < s.date + Window
  {
  }

  /** The window is closed at its start and open at its end: a tile of the
      sighting's cell taken at the sighting's instant is marked, and no tile
      taken exactly 30 days later is marked by that sighting. */
  lemma WindowBoundaries(s: Sighting, cell: Cell, n: nat, expand: Cell -> seq<Cell>)
    ensures Hit(s, s.gh, s.date, n, expand)
    ensures !Hit(s, cell, s.date + Window, n, expand)
  {
  }

  /** A sighting in cell "sas01" on day 0 marks a tile of that cell on day
      14, not one on day 35, and not one of cell "sbb02" on day 14. */
  lemma ThreeTileScenario(expand: Cell -> seq<Cell>)
    ensures Labels(["sas01", "sas01", "sbb02"], [14 * Day, 35 * Day, 14 * Day],
                   [Sighting("sas01", 0.0, 0.0, 0)], 0, expand) == [1, 0, 0]
  {
  }

  /** The tile table: the geohash and date columns, and the label column
      that get_labels writes. */
  class TileTable {
    var geohash: seq<Cell>
    var date: seq<Instant>
    var hoppers: seq<int>

    ghost predicate Valid()
      reads this
    {
      |geohash| == |date|
    }

    /** A table without a label column yet. */
    constructor (geohash: seq<Cell>, date: seq<Instant>)
      requires |geohash| == |date|
      ensures Valid()
      ensures this.geohash == geohash && this.date == date && hoppers == []
    {
      this.geohash := geohash;
      this.date := date;
      hoppers := [];
    }

    /** `get_labels`: whatever the label column held is replaced by zeros,
        then each sighting in turn sets the label of every tile it marks to
        1. Only the label column changes. */
    method GetLabels(sightings: seq<Sighting>, n: nat, expand: Cell -> seq<Cell>)
      requires Valid()
      modifies this
      ensures Valid()
      ensures geohash == old(geohash) && date == old(date)
      ensures hoppers == Labels(geohash, date, sightings, n, expand)
    {
      hoppers := seq(|geohash|, _ => 0);
      for k := 0 to |sightings|
        invariant Valid() && geohash == old(geohash) && date == old(date)
        invariant hoppers == Labels(geohash, date, sightings[..k], n, expand)
      {
        var s := sightings[k];
        var cells := NeighbourCells(s.gh, n, expand);
        ghost var prev := hoppers;
        for i := 0 to |geohash|
          invariant geohash == old(geohash) && date == old(date)
          invariant |hoppers| == |geohash|
          invariant forall j :: 0 <= j < |geohash| ==>
            hoppers[j] == if j < i && Hit(s, geohash[j], date[j], n, expand) then 1 else prev[j]
        {
          if geohash[i] in cells && s.date <= date[i] && date[i] < s.date + Window {
            hoppers := hoppers[i := 1];
          }
        }
        assert sightings[..k + 1][..k] == sightings[..k];
      }
      assert sightings[..|sightings|] == sightings;
    }
  }

  /** Labelling a table twice with the same sightings gives the same labels
      both times, and every label is 0 or 1. */
  method LabelTwice(geohash: seq<Cell>, date: seq<Instant>, sightings: seq<Sighting>, n: nat, expand: Cell -> seq<Cell>)
    returns (first: seq<int>, second: seq<int>)
    requires |geohash| == |date|
    ensures first == second && |first| == |geohash|
    ensures forall i :: 0 <= i < |first| ==> first[i] == 0 || first[i] == 1
  {
    var table := new TileTable(geohash, date);
    table.GetLabels(sightings, n, expand);
    first := table.hoppers;
    table.GetLabels(sightings, n, expand);
    second := table.hoppers;
  }
}

/** The time-zone catalog of Calamares' locale support (TimeZone.h): zone
    records, the list of regions, the list of zones with its lookups and
    iterator, and the list of zones filtered to one region. Pointers to
    records are modelled as indices into the catalog's zone sequence. */
module Locale {
  import opened Wrappers
  import opened Variants

  /** Qt::DisplayRole and Qt::UserRole, on which the models' roles rest. */
  const DisplayRole: int := 0
  const UserRole: int := 0x0100

  /** Roles of both list models: NameRole is the display role, KeyRole the
      first user role; ZonesModel adds RegionRole just after it. */
  const NameRole: int := DisplayRole
  const KeyRole: int := UserRole
  const RegionRole: int := UserRole + 1

  /** The zone lookup() falls back to. */
  const FallbackRegion: string := "America"
  const FallbackZone: string := "New_York"

  /** One zone. A datatype value cannot change once built, which is what
      the source gets by deleting the copy and move constructors. The zone
      name is the record's translatable key. */
  datatype TimeZoneData = TimeZoneData(region: string, key: string, country: string, latitude: real, longitude: real)
  {
    /** zone(): the zone name, which is the key. */
    function Zone(): string { key }

    /** tr(): the display name, the localisation layer's translation of
        the key. */
    function Tr(translate: string -> string): string { translate(key) }

    /** Does this record answer to the name (region, zone)? */
    predicate HasName(r: string, z: string) { region == r && key == z }
  }

  lemma AccessorsReturnConstructorArguments(region: string, zone: string, country: string, latitude: real, longitude: real)
    ensures var d := TimeZoneData(region, zone, country, latitude, longitude);
      d.region == region && d.Zone() == zone && d.country == country &&
      d.latitude == latitude && d.longitude == longitude
  {
  }

  /** Squared planar distance from a record to a point: one degree of
      latitude counts as much as one degree of longitude. */
  function SquaredDistance(z: TimeZoneData, latitude: real, longitude: real): real
  {
    (z.latitude - latitude) * (z.latitude - latitude) + (z.longitude - longitude) * (z.longitude - longitude)
  }

  /** Index `i` holds a zone nearest to the point, and the first such zone
      in catalog order. */
  predicate IsNearest(zones: seq<TimeZoneData>, latitude: real, longitude: real, i: nat)
  {
    && i < |zones|
    && (forall j :: 0 <= j < |zones| ==>
          SquaredDistance(zones[i], latitude, longitude) <= SquaredDistance(zones[j], latitude, longitude))
    && (forall j :: 0 <= j < i ==>
          SquaredDistance(zones[i], latitude, longitude) < SquaredDistance(zones[j], latitude, longitude))
  }

  /** Nearest lookup is deterministic: at most one index is the nearest. */
  lemma NearestIsUnique(zones: seq<TimeZoneData>, latitude: real, longitude: real, i: nat, j: nat)
    requires IsNearest(zones, latitude, longitude, i) && IsNearest(zones, latitude, longitude, j)
    ensures i == j
  {
    var di, dj := SquaredDistance(zones[i], latitude, longitude), SquaredDistance(zones[j], latitude, longitude);
    assert di == dj;
  }

  /** The set of regions the zones belong to. */
  function RegionSet(zones: seq<TimeZoneData>): set<string>
  {
    set z | z in zones :: z.region
  }

  /** The index of the first zone that lies in `region`. */
  function FirstIndex(zones: seq<TimeZoneData>, region: string): (k: nat)
    requires region in RegionSet(zones)
    ensures k < |zones| && zones[k].region == region
    ensures forall j :: 0 <= j < k ==> zones[j].region != region
    decreases |zones|
  {
    if zones[0].region == region then 0
    else
      var z :| z in zones && z.region == region;
      assert z in zones[1..];
      1 + FirstIndex(zones[1..], region)
  }

  /** Appending a zone does not move the first occurrence of a region that
      already occurs. */
  lemma FirstIndexOfPrefix(init: seq<TimeZoneData>, last: TimeZoneData, region: string)
    requires region in RegionSet(init)
    ensures region in RegionSet(init + [last])
    ensures FirstIndex(init + [last], region) == FirstIndex(init, region)
  {
    var k := FirstIndex(init, region);
    assert (init + [last])[k] == init[k];
    var z := init[k];
    assert z in init + [last];
  }

  /** A region that first occurs in the appended zone occurs first there. */
  lemma FirstIndexOfAppended(init: seq<TimeZoneData>, last: TimeZoneData)
    requires last.region !in RegionSet(init)
    ensures last.region in RegionSet(init + [last])
    ensures FirstIndex(init + [last], last.region) == |init|
  {
    assert last in init + [last];
  }

  /** The distinct regions of the zones, each listed once, in the order in
      which they first occur. */
  function Regions(zones: seq<TimeZoneData>): (rs: seq<string>)
    ensures forall i, j :: 0 <= i < j < |rs| ==> rs[i] != rs[j]
    ensures forall r :: r in rs <==> r in RegionSet(zones)
    ensures forall i, j :: 0 <= i < j < |rs| ==> FirstIndex(zones, rs[i]) < FirstIndex(zones, rs[j])
    decreases |zones|
  {
    if |zones| == 0 then []
    else
      var init := zones[..|zones| - 1];
      var last := zones[|zones| - 1];
      assert zones == init + [last];
      var rs := Regions(init);
      assert forall r :: r in rs ==> FirstIndex(zones, r) == FirstIndex(init, r) by {
        forall r | r in rs
          ensures FirstIndex(zones, r) == FirstIndex(init, r)
        {
          FirstIndexOfPrefix(init, last, r);
        }
      }
      if last.region in rs then rs
      else
        FirstIndexOfAppended(init, last);
        rs + [last.region]
  }

  /** A sequence without repetitions is as long as the set of its elements. */
  lemma {:induction false} DistinctLength(rs: seq<string>)
    requires forall i, j :: 0 <= i < j < |rs| ==> rs[i] != rs[j]
    ensures |set r | r in rs| == |rs|
  {
    if |rs| > 0 {
      var tail := rs[1..];
      DistinctLength(tail);
      assert (set r | r in rs) == (set r | r in tail) + {rs[0]};
    }
  }

  /** RegionsModel: the list of regions (Africa, America, ...) that contain
      zones. */
  datatype RegionsModel = RegionsModel(zones: seq<TimeZoneData>)
  {
    /** rowCount(): one row per distinct region. */
    function RowCount(): (n: int)
      ensures n == |RegionSet(zones)|
    {
      var rs := Regions(zones);
      DistinctLength(rs);
      assert (set r | r in rs) == RegionSet(zones);
      |rs|
    }

    /** data(): a row's region name for KeyRole and its translation for
        NameRole; the Invalid variant for any other role or a row out of
        range. */
    function Data(row: int, role: int, translate: string -> string): (v: Variant)
      ensures v.IsValid() <==> 0 <= row < RowCount() && (role == NameRole || role == KeyRole)
      ensures 0 <= row < RowCount() && role == KeyRole ==> v == Str(Regions(zones)[row])
      ensures 0 <= row < RowCount() && role == NameRole ==> v == Str(translate(Regions(zones)[row]))
    {
      var rs := Regions(zones);
      if 0 <= row < |rs| && role == NameRole then Str(translate(rs[row]))
      else if 0 <= row < |rs| && role == KeyRole then Str(rs[row])
      else Invalid
    }
  }

  /** Every region a zone belongs to is the key of some RegionsModel row. */
  lemma EveryZoneRegionIsListed(zones: seq<TimeZoneData>, i: nat, translate: string -> string)
    requires i < |zones|
    ensures exists row :: (0 <= row < RegionsModel(zones).RowCount() &&
      RegionsModel(zones).Data(row, KeyRole, translate) == Str(zones[i].region))
  {
    var rs := Regions(zones);
    assert zones[i] in zones;
    assert zones[i].region in rs;
    var row :| 0 <= row < |rs| && rs[row] == zones[i].region;
    assert RegionsModel(zones).Data(row, KeyRole, translate) == Str(zones[i].region);
  }

  /** ZonesModel: every zone of the catalog, in stored order. */
  datatype ZonesModel = ZonesModel(zones: seq<TimeZoneData>)
  {
    /** rowCount(): one row per zone. */
    function RowCount(): (n: int)
      ensures n == |zones|
    {
      |zones|
    }

    /** data(): a row's translated name for NameRole, zone name for KeyRole
        and region for RegionRole; the Invalid variant for any other role
        or a row out of range. */
    function Data(row: int, role: int, translate: string -> string): (v: Variant)
      ensures v.IsValid() <==> 0 <= row < RowCount() && (role == NameRole || role == KeyRole || role == RegionRole)
      ensures 0 <= row < RowCount() && role == NameRole ==> v == Str(zones[row].Tr(translate))
      ensures 0 <= row < RowCount() && role == KeyRole ==> v == Str(zones[row].Zone())
      ensures 0 <= row < RowCount() && role == RegionRole ==> v == Str(zones[row].region)
    {
      if !(0 <= row < |zones|) then Invalid
      else if role == NameRole then Str(zones[row].Tr(translate))
      else if role == KeyRole then Str(zones[row].key)
      else if role == RegionRole then Str(zones[row].region)
      else Invalid
    }

    /** find(region, zone): the first zone with that name, None when no
        zone has it. */
    function Find(region: string, zone: string): (r: Option<nat>)
      ensures r.Some? ==> r.value < |zones| && zones[r.value].HasName(region, zone)
      ensures r.Some? ==> forall j :: 0 <= j < r.value ==> !zones[j].HasName(region, zone)
      ensures r.None? <==> forall j :: 0 <= j < |zones| ==> !zones[j].HasName(region, zone)
      decreases |zones|
    {
      if |zones| == 0 then None
      else if zones[0].HasName(region, zone) then Some(0)
      else
        match ZonesModel(zones[1..]).Find(region, zone)
        case None => None
        case Some(i) => Some(i + 1)
    }

    /** find(latitude, longitude): the zone nearest to the point, the
        earliest one on a tie; None only for an empty catalog. */
    method FindNearest(latitude: real, longitude: real) returns (r: Option<nat>)
      ensures r.None? <==> |zones| == 0
      ensures r.Some? ==> IsNearest(zones, latitude, longitude, r.value)
    {
      r := None;
      var i := 0;
      while i < |zones|
        invariant 0 <= i <= |zones|
        invariant r.None? <==> i == 0
        invariant r.Some? ==> r.value < i
        invariant r.Some? ==> forall j :: 0 <= j < i ==>
          SquaredDistance(zones[r.value], latitude, longitude) <= SquaredDistance(zones[j], latitude, longitude)
        invariant r.Some? ==> forall j :: 0 <= j < r.value ==>
          SquaredDistance(zones[r.value], latitude, longitude) < SquaredDistance(zones[j], latitude, longitude)
      {
        if r.None? || SquaredDistance(zones[i], latitude, longitude) < SquaredDistance(zones[r.value], latitude, longitude) {
          r := Some(i);
        }
        i := i + 1;
      }
    }

    /** lookup(latitude, longitude): the nearest zone, or else New York.
        Never None when New York is in the catalog. */
    method Lookup(latitude: real, longitude: real) returns (r: Option<nat>)
      ensures r.Some? ==> IsNearest(zones, latitude, longitude, r.value) || r == Find(FallbackRegion, FallbackZone)
      ensures |zones| > 0 ==> r.Some? && IsNearest(zones, latitude, longitude, r.value)
      ensures Find(FallbackRegion, FallbackZone).Some? ==> r.Some?
    {
      r := FindNearest(latitude, longitude);
      if r.None? {
        r := Find(FallbackRegion, FallbackZone);
      }
    }

    /** begin(): an iterator at index 0 over these zones. */
    method Begin() returns (it: Iterator)
      ensures fresh(it) && it.zones == zones && it.index == 0
    {
      it := new Iterator(zones);
    }

    /** The loop the header documents, `for (it = begin(); it; ++it)`,
        visits every zone once, in catalog order. */
    method VisitAll() returns (visited: seq<TimeZoneData>)
      ensures visited == zones
    {
      var it := Begin();
      visited := [];
      while it.IsValid()
        invariant it.zones == zones
        invariant 0 <= it.index <= |zones|
        invariant visited == zones[..it.index]
        decreases |zones| - it.index
      {
        var p := it.Deref();
        visited := visited + [zones[p.value]];
        it.Increment();
      }
    }
  }

  /** Row `row` of a ZonesModel is found again by find() on its region and
      zone name: at that row, or at an earlier row with the same name. */
  lemma FindRecoversRow(model: ZonesModel, row: int, translate: string -> string)
    requires 0 <= row < model.RowCount()
    ensures var f := model.Find(model.Data(row, RegionRole, translate).s, model.Data(row, KeyRole, translate).s);
      f.Some? && f.value <= row && model.zones[f.value].HasName(model.zones[row].region, model.zones[row].key)
  {
  }

  /** ZonesModel::Iterator: an index into the zones of one catalog. */
  class Iterator {
    const zones: seq<TimeZoneData>
    var index: int

    constructor (zones: seq<TimeZoneData>)
      ensures this.zones == zones && index == 0
    {
      this.zones := zones;
      index := 0;
    }

    /** operator bool(): the index is within the zones. */
    predicate IsValid()
      reads this
      ensures IsValid() <==> 0 <= index < |zones|
    {
      0 <= index < |zones|
    }

    /** operator++(): move to the next index. */
    method Increment()
      modifies this
      ensures index == old(index) + 1
    {
      index := index + 1;
    }

    /** operator*(): the zone at the index while valid, None (the null
        pointer) once not. */
    function Deref(): (r: Option<nat>)
      reads this
      ensures r.Some? <==> IsValid()
      ensures r.Some? ==> r.value == index
    {
      if IsValid() then Some(index as nat) else None
    }
  }

  /** Number of zones in `region` among the first `n` zones. */
  function CountInRegion(zones: seq<TimeZoneData>, region: string, n: nat): nat
    requires n <= |zones|
  {
    if n == 0 then 0
    else CountInRegion(zones, region, n - 1) + (if zones[n - 1].region == region then 1 else 0)
  }

  /** RegionalZonesModel: the zones of one region. The region is a string
      property whose change is signalled by regionChanged. */
  class RegionalZonesModel {
    const source: ZonesModel
    var region: string
    /** The arguments of every regionChanged signal emitted so far. */
    ghost var regionChanged: seq<string>

    constructor (source: ZonesModel)
      ensures this.source == source && region == "" && regionChanged == []
    {
      this.source := source;
      region := "";
      regionChanged := [];
    }

    /** filterAcceptsRow(): with no region set every row passes; otherwise
        a source row passes when its zone lies in the region. */
    predicate FilterAcceptsRow(sourceRow: int)
      reads this
      ensures region == "" ==> FilterAcceptsRow(sourceRow)
      ensures region != "" ==> (FilterAcceptsRow(sourceRow) <==>
        0 <= sourceRow < source.RowCount() && source.zones[sourceRow].region == region)
    {
      region == "" || (0 <= sourceRow < |source.zones| && source.zones[sourceRow].region == region)
    }

    /** setRegion(): replaces the region (which re-filters the rows) and
        emits regionChanged(r), also when `r` equals the current region. */
    method SetRegion(r: string)
      modifies this
      ensures region == r
      ensures regionChanged == old(regionChanged) + [r]
    {
      region := r;
      regionChanged := regionChanged + [r];
    }

    /** The accepted source rows below `n`, ascending. */
    function AcceptedBelow(n: nat): (rows: seq<nat>)
      reads this
      requires n <= |source.zones|
      ensures forall i, j :: 0 <= i < j < |rows| ==> rows[i] < rows[j]
      ensures forall k :: 0 <= k < |rows| ==> rows[k] < n && FilterAcceptsRow(rows[k])
      ensures forall s :: 0 <= s < n && FilterAcceptsRow(s) ==> s in rows
      decreases n
    {
      if n == 0 then []
      else AcceptedBelow(n - 1) + (if FilterAcceptsRow(n - 1) then [n - 1] else [])
    }

    /** The rows the proxy shows, as source rows in source order. */
    function Rows(): (rows: seq<nat>)
      reads this
      ensures forall i, j :: 0 <= i < j < |rows| ==> rows[i] < rows[j]
      ensures forall k :: 0 <= k < |rows| ==> rows[k] < source.RowCount() && FilterAcceptsRow(rows[k])
      ensures forall s :: 0 <= s < source.RowCount() && FilterAcceptsRow(s) ==> s in rows
    {
      AcceptedBelow(|source.zones|)
    }

    /** rowCount() of the filtered view: every zone with no region set,
        otherwise the number of zones in the region. */
    function RowCount(): (n: int)
      reads this
      ensures region == "" ==> n == source.RowCount()
      ensures region != "" ==> n == CountInRegion(source.zones, region, |source.zones|)
    {
      if region == "" then
        EmptyRegionAcceptsAll(this, |source.zones|);
        |Rows()|
      else
        FilteredRowsAreTheRegion(this, |source.zones|);
        |Rows()|
    }

    /** data() of the filtered view: the source's data for the source row
        behind `row`. */
    function Data(row: int, role: int, translate: string -> string): (v: Variant)
      reads this
      ensures v.IsValid() ==> 0 <= row < RowCount()
      ensures 0 <= row < RowCount() ==> v == source.Data(Rows()[row], role, translate)
    {
      if 0 <= row < |Rows()| then source.Data(Rows()[row], role, translate) else Invalid
    }
  }

  /** With a region set, the view counts exactly the zones of that region,
      and each of its rows lies in that region. */
  lemma {:induction false} FilteredRowsAreTheRegion(view: RegionalZonesModel, n: nat)
    requires view.region != "" && n <= |view.source.zones|
    ensures |view.AcceptedBelow(n)| == CountInRegion(view.source.zones, view.region, n)
    decreases n
  {
    if n > 0 {
      FilteredRowsAreTheRegion(view, n - 1);
    }
  }

  /** With a region set, every row of the view shows a zone of that region
      and the view has as many rows as the region has zones. */
  lemma RegionViewShowsExactlyTheRegion(view: RegionalZonesModel, translate: string -> string)
    requires view.region != ""
    ensures view.RowCount() == CountInRegion(view.source.zones, view.region, |view.source.zones|)
    ensures forall row :: 0 <= row < view.RowCount() ==> view.Data(row, RegionRole, translate) == Str(view.region)
  {
    FilteredRowsAreTheRegion(view, |view.source.zones|);
  }

  /** With no region set, the view shows every source row, in order. */
  lemma {:induction false} EmptyRegionAcceptsAll(view: RegionalZonesModel, n: nat)
    requires view.region == "" && n <= |view.source.zones|
    ensures |view.AcceptedBelow(n)| == n
    ensures forall k :: 0 <= k < n ==> view.AcceptedBelow(n)[k] == k
    decreases n
  {
    if n > 0 {
      EmptyRegionAcceptsAll(view, n - 1);
    }
  }

  /** Without a region the view's row count is the number of zones. */
  lemma UnfilteredViewShowsAll(view: RegionalZonesModel, translate: string -> string)
    requires view.region == ""
    ensures view.RowCount() == view.source.RowCount()
    ensures forall row, role :: 0 <= row < view.RowCount() ==>
      view.Data(row, role, translate) == view.source.Data(row, role, translate)
  {
    EmptyRegionAcceptsAll(view, |view.source.zones|);
  }

  /** After setRegion(r): region() is r, regionChanged(r) was emitted last,
      and the rows shown are those of region r (all rows when r is empty). */
  method SetRegionThenQuery(view: RegionalZonesModel, r: string, translate: string -> string)
    modifies view
    ensures view.region == r && view.regionChanged == old(view.regionChanged) + [r]
    ensures r != "" ==> view.RowCount() == CountInRegion(view.source.zones, r, |view.source.zones|)
    ensures r == "" ==> view.RowCount() == view.source.RowCount()
  {
    view.SetRegion(r);
    if r != "" {
      RegionViewShowsExactlyTheRegion(view, translate);
    } else {
      UnfilteredViewShowsAll(view, translate);
    }
  }

  /** A three-zone catalog: Amsterdam and Berlin in Europe, New York in
      America. */
  function SampleZones(): seq<TimeZoneData>
  {
    [ TimeZoneData("Europe", "Amsterdam", "NL", 52.37, 4.90),
      TimeZoneData("Europe", "Berlin", "DE", 52.52, 13.40),
      TimeZoneData("America", "New_York", "US", 40.71, -74.01) ]
  }

  /** Exact lookup on the sample catalog: a hit and a miss. */
  method SampleExactLookups() returns (newYork: Option<nat>, paris: Option<nat>)
    ensures newYork == Some(2) && paris == None
  {
    var model := ZonesModel(SampleZones());
    newYork := model.Find("America", "New_York");
    paris := model.Find("Europe", "Paris");
  }

  /** Nearest lookup on the sample catalog: a point just east of Amsterdam. */
  method SampleNearestLookup() returns (nearAmsterdam: Option<nat>)
    ensures nearAmsterdam == Some(0)
  {
    var zones := SampleZones();
    nearAmsterdam := ZonesModel(zones).FindNearest(52.40, 5.00);
    assert SquaredDistance(zones[0], 52.40, 5.00) == 0.0109;
    assert SquaredDistance(zones[1], 52.40, 5.00) == 70.5744;
    assert SquaredDistance(zones[2], 52.40, 5.00) > 1.0;
    NearestIsUnique(zones, 52.40, 5.00, nearAmsterdam.value, 0);
  }

  /** The regional view of the sample catalog, set to Europe. */
  method SampleRegionalView() returns (europeRows: seq<nat>)
    ensures europeRows == [0, 1]
  {
    var view := new RegionalZonesModel(ZonesModel(SampleZones()));
    view.SetRegion("Europe");
    europeRows := view.Rows();
    var zones := SampleZones();
    assert zones[0].region == "Europe" && zones[1].region == "Europe" && zones[2].region != "Europe";
    assert view.FilterAcceptsRow(0) && view.FilterAcceptsRow(1) && !view.FilterAcceptsRow(2);
    assert view.AcceptedBelow(0) == [];
    assert view.AcceptedBelow(1) == [0];
    assert view.AcceptedBelow(2) == [0, 1];
  }
}

# Calamares time-zone catalog and global storage, in Dafny

This project models two parts of Calamares' `libcalamares`:

- **The time-zone catalog** (`locale/TimeZone.h`, module `Locale`). A
  `TimeZoneData` record holds a region, a zone name (its translatable key),
  a country and a latitude and longitude. `RegionsModel` lists the distinct
  regions. `ZonesModel` lists every zone in stored order. It offers exact
  lookup by (region, zone), nearest lookup by coordinate, `lookup` (nearest,
  or else New York) and an index-based `Iterator`. `RegionalZonesModel` is a
  filtered view whose `region` can be changed with `setRegion`, which emits
  `regionChanged`. The catalog is a `seq<TimeZoneData>`; the pointers the
  header returns are `Option<nat>` indices into it, with `None` for null.
  The models are immutable, so they are datatypes with member functions.
  The iterator and the filtered view change a field in place, so they are
  classes.
- **The global storage** (`GlobalStorage.h`, module `Calamares`). This is
  the key-value store that installer modules use to pass data to one
  another. It is a class over a `map<string, Variant>`. `Variant` stands
  for `QVariant` and has a distinguished `Invalid` value. A ghost counter
  records every emission of `changed()`. `insert`, `remove` and `load`
  change the map in place. `contains`, `count`, `keys` and `value` only
  read it.

Helper modules: `Wrappers` (Option), `Variants` (Variant) and
`StringOrder`. `StringOrder` holds the lexicographic order in which a QMap
lists its keys, with proofs that it is a strict total order and that every
finite set of strings has a least element.

`TimeZone.h` and `GlobalStorage.h` do not specify some behaviour, so the
model makes these choices:

- Nearest lookup uses the squared planar distance in degrees. On a tie it
  picks the earliest zone.
- The region list is in first-seen order.
- An empty region in the filtered view accepts every row.
- `setRegion` emits `regionChanged` on every call, even when the region
  does not change.
- `load` inserts each loaded key one at a time, so `changed()` is emitted
  once per key.

## Model

| member | source | states |
|---|---|---|
| `Locale.AccessorsReturnConstructorArguments` | src/libcalamares/locale/TimeZone.h:52-67 | A record's region, zone, country, latitude and longitude are exactly the constructor's arguments. A datatype value never changes afterwards. |
| `Locale.Regions` | src/libcalamares/locale/TimeZone.h:77-81 | The region list holds each region once. It contains exactly the regions that some zone belongs to. Regions are listed in the order of their first zone in the catalog. |
| `Locale.RegionsModel.RowCount` | src/libcalamares/locale/TimeZone.h:96 | The number of region rows equals the number of distinct regions among the zones. |
| `Locale.RegionsModel.Data` | src/libcalamares/locale/TimeZone.h:87-97 | KeyRole gives the row's region name. NameRole gives its translation. A row out of range or any other role gives the invalid variant. |
| `Locale.EveryZoneRegionIsListed` | src/libcalamares/locale/TimeZone.h:77-81 | Every zone's region is the KeyRole value of some row of the regions model. |
| `Locale.ZonesModel.RowCount` | src/libcalamares/locale/TimeZone.h:120 | The number of zone rows is the number of zones in the catalog. |
| `Locale.ZonesModel.Data` | src/libcalamares/locale/TimeZone.h:110-121 | Rows are valid exactly below rowCount. For a valid row, NameRole gives the translated name, KeyRole the zone name and RegionRole the region. Anything else gives the invalid variant. |
| `Locale.ZonesModel.Find` | src/libcalamares/locale/TimeZone.h:160-164 | Returns a zone whose region and zone name both match, the first such zone. Returns None exactly when no zone matches. |
| `Locale.FindRecoversRow` | src/libcalamares/locale/TimeZone.h:160-164 | Looking up a row's RegionRole and KeyRole values with find returns that row, or an earlier row with the same name. |
| `Locale.ZonesModel.FindNearest` | src/libcalamares/locale/TimeZone.h:166-170 | On a non-empty catalog, returns a zone that no other zone is strictly nearer than, choosing the earliest on a tie. Returns None only on an empty catalog. |
| `Locale.NearestIsUnique` | src/libcalamares/locale/TimeZone.h:166-170 | At most one index is the nearest, so nearest lookup is deterministic. |
| `Locale.ZonesModel.Lookup` | src/libcalamares/locale/TimeZone.h:172-177 | Returns the nearest zone, or else the New York record. It is never None when New York is in the catalog. |
| `Locale.ZonesModel.Begin` | src/libcalamares/locale/TimeZone.h:157 | begin() returns a new iterator over the catalog at index 0. |
| `Locale.Iterator.constructor` | src/libcalamares/locale/TimeZone.h:140-144 | A new iterator starts at index 0. |
| `Locale.Iterator.Increment` | src/libcalamares/locale/TimeZone.h:148 | `++` raises the index by exactly one. |
| `Locale.Iterator.IsValid` | src/libcalamares/locale/TimeZone.h:147 | `operator bool` holds exactly while the index is at least 0 and below the number of zones. |
| `Locale.Iterator.Deref` | src/libcalamares/locale/TimeZone.h:147-150 | `*it` gives the zone at index() exactly while the iterator is valid (index within the zones). Otherwise it gives None, the null pointer. |
| `Locale.ZonesModel.VisitAll` | src/libcalamares/locale/TimeZone.h:125-136 | The documented loop `for (it = begin(); it; ++it)` visits exactly the catalog's zones, each once, in order. |
| `Locale.RegionalZonesModel.constructor` | src/libcalamares/locale/TimeZone.h:189 | A new filtered view wraps its source and has the empty region. |
| `Locale.RegionalZonesModel.SetRegion` | src/libcalamares/locale/TimeZone.h:194-200 | Afterwards region() is `r`, and regionChanged(r) has been emitted once more, even if `r` was already the region. |
| `Locale.RegionalZonesModel.FilterAcceptsRow` | src/libcalamares/locale/TimeZone.h:192 | With the empty region, every source row is accepted. With a region set, a source row is accepted exactly when it is in range and its zone lies in that region. |
| `Locale.RegionalZonesModel.AcceptedBelow` | src/libcalamares/locale/TimeZone.h:192 | The view's rows are, in ascending order, exactly the source rows that filterAcceptsRow accepts. |
| `Locale.RegionalZonesModel.Rows` | src/libcalamares/locale/TimeZone.h:183-192 | The view's rows are the accepted source rows, each once, in ascending source order. |
| `Locale.RegionalZonesModel.RowCount` | src/libcalamares/locale/TimeZone.h:183-192 | The view's row count is the number of zones with the empty region. With a region set, it is the number of zones in that region. |
| `Locale.RegionalZonesModel.Data` | src/libcalamares/locale/TimeZone.h:183-192 | A row of the view shows the source's data for the accepted source row behind it. A row out of range gives the invalid variant. |
| `Locale.FilteredRowsAreTheRegion` | src/libcalamares/locale/TimeZone.h:192 | With a region set, the number of accepted rows equals the number of zones in that region. |
| `Locale.RegionViewShowsExactlyTheRegion` | src/libcalamares/locale/TimeZone.h:192-197 | With a region set, every row of the view has that region as its RegionRole. The view has as many rows as the region has zones. |
| `Locale.EmptyRegionAcceptsAll` | src/libcalamares/locale/TimeZone.h:192 | With the empty region, the accepted rows are exactly 0, 1, ..., n-1. |
| `Locale.UnfilteredViewShowsAll` | src/libcalamares/locale/TimeZone.h:192-194 | With the empty region, the view has the source's row count and shows the same data row for row. |
| `Locale.SetRegionThenQuery` | src/libcalamares/locale/TimeZone.h:186-200 | After setRegion(r), region() is r and regionChanged(r) was the last emission. The row count is the number of zones in r, or all zones when r is empty. |
| `Locale.SampleExactLookups` | src/libcalamares/locale/TimeZone.h:160-164 | In the sample catalog, find("America", "New_York") hits the New York record and find("Europe", "Paris") misses. |
| `Locale.SampleNearestLookup` | src/libcalamares/locale/TimeZone.h:166-170 | In the sample catalog, the zone nearest to (52.40, 5.00) is Amsterdam. |
| `Locale.SampleRegionalView` | src/libcalamares/locale/TimeZone.h:192-197 | In the sample catalog, the view set to Europe shows source rows 0 and 1 (Amsterdam and Berlin). |
| `Calamares.GlobalStorage.constructor` | src/libcalamares/GlobalStorage.h:55-61 | A new store is empty and has emitted nothing. |
| `Calamares.GlobalStorage.Insert` | src/libcalamares/GlobalStorage.h:63-69 | Afterwards contains(key) holds and value(key) is the new value, overwriting any old one. Every other key keeps its presence and value. changed() is emitted exactly once. |
| `Calamares.GlobalStorage.Remove` | src/libcalamares/GlobalStorage.h:70-77 | Afterwards the key is absent and every other key is unchanged. A missing key leaves the store as it was. The result is the number of keys left. changed() is emitted exactly once, even for a missing key. |
| `Calamares.GlobalStorage.Contains` | src/libcalamares/GlobalStorage.h:129-134 | Holds exactly for the keys the map has, including keys explicitly set to the invalid variant. |
| `Calamares.GlobalStorage.Count` | src/libcalamares/GlobalStorage.h:135-140 | The number of keys the map holds. `Keys` proves that it equals the length of the key list. |
| `Calamares.GlobalStorage.Keys` | src/libcalamares/GlobalStorage.h:135-146 | Returns each key for which contains() holds, exactly once, in ascending order. Its length equals count(). |
| `Calamares.GlobalStorage.Value` | src/libcalamares/GlobalStorage.h:147-155 | For a present key, returns the stored value. For a missing key, returns the invalid variant. |
| `Calamares.InvalidValueOnlyContainsDistinguishes` | src/libcalamares/GlobalStorage.h:129-134 | A missing key and a key explicitly set to the invalid variant have the same value(). Only contains() tells them apart. |
| `Calamares.KeysAreACopy` | src/libcalamares/GlobalStorage.h:141-146 | A key list taken before an insert and a remove still lists the old keys afterwards. A list taken after the insert also includes the new key, and one taken after the remove lacks it. The store ends without the key. |
| `Calamares.GlobalStorage.Load` | src/libcalamares/GlobalStorage.h:99-106 | On a parsed document, every loaded key ends up holding its loaded value. Every other key keeps its value, because the store is not cleared. changed() is emitted once per loaded key. An unreadable document changes nothing and gives false. |

## Left out

- `save`, `saveYaml` and `debugDump`, and the file-reading and JSON parsing half of `load`: file I/O, serialisation and logging. `Load` takes the document already parsed, or None when reading or parsing failed.
- `loadYaml`: YAML file I/O, left out together with `save` and `saveYaml`.
- `data()` of GlobalStorage: the model's map field `m` is that value.
- The Qt model/view machinery: `QAbstractListModel`, `QSortFilterProxyModel`, `invalidateFilter`, `roleNames`, the `QModelIndex` parent argument, `Q_PROPERTY` and QML exposure. The filtered rows are a function of the current region, so they are recomputed whenever the region changes.
- `lookup` returns a `QObject*` for QML. The model returns the same index that it returns for the other lookups.
- Translation (`tr()` and `TranslatableString`): this is a call into the localisation library. It is a function parameter `translate`, applied to the key.
- Floating-point numerics: coordinates are `real`, so NaN, infinities and rounding are not modelled. TimeZone.h does not specify the metric; the model uses the squared planar distance.
- Locale.ZonesModel.FindNearest: does not check that the coordinates are in range. TimeZone.h promises the nearest zone for any latitude and longitude.
- Locale.ZonesModel.Lookup: the New York fallback only applies on an empty catalog. With real coordinates nearest lookup cannot fail otherwise, and NaN is not modelled.
- How the zone data is loaded into the catalog: not part of this model. The catalog is a given sequence, and the region list is kept in first-seen order.
- Locale.Iterator.Increment: does not model the overflow of the C++ `int` index past its maximum.
- Calamares.GlobalStorage.Remove: the `int` result is unbounded here. It does not wrap past 2^31 - 1 keys.
- Calamares.GlobalStorage.Keys: orders keys by Unicode code point. `QString` compares UTF-16 code units, which orders characters outside the Basic Multilingual Plane differently.
- Thread safety, object ownership and pointer lifetime: the store is used from one thread, and indices replace pointers.
- The `changed()` and `regionChanged` signals are a ghost counter and a ghost log of arguments. Connected slots are not modelled.

# Locality finder cache

A Dafny model of `search::LocalityFinder` (search/locality_finder.cpp). The finder answers the
question "which city or town is this point in?". It keeps two banks of caches:

- A **viewport** bank, addressed by the caller's slot index and rebuilt by `SetViewportByIndex`.
- A **temporary** bank, recycled by usage count in `GetLocalityCreateCache`.

Each `LocalityFinder::Cache` holds:

- a covering rect;
- a spatial tree of `LocalityItem`s (rect, name, population, feature id);
- the set of feature ids already loaded;
- a `size_t` usage counter.

A cache is filled by `RecreateCache`, which runs the `DoLoader` filter over the features of
the world map. It is queried by `Cache::GetLocality`, which bumps the usage when the point is
inside the rect and lets `DoSelectLocality` choose the item with the strictly smallest value
`GetPopulationByRadius(distance) / population`.

## Files

- `geometry.dfy` (module `Geometry`):
  - points and rectangles;
  - the inclusive `IsPointInside` / `IsIntersect` tests of `m2::Rect`;
  - the degenerate query rect and clamping.
- `locality_model.dfy` (module `LocalityModel`): value-level functions for one cache. It covers:
  - features;
  - the `DoLoader` skip chain and insertion;
  - `Cache::Clear`, `CorrectMinimalRect` and `RecreateCache`;
  - the scoring and selection rule of `DoSelectLocality`;
  - `Cache::GetLocality`;
  - the cache invariant and its lemmas.
- `locality_cache.dfy` (module `LocalityCache`), the imperative objects, each proved against
  `LocalityModel`:
  - class `Cache` (fields updated in place);
  - class `LocalitySelector` (the `DoSelectLocality` functor with its running best value);
  - the tree query loop `SelectInTree`;
  - the `DoLoader` method.
- `finder_model.dfy` (module `FinderModel`): value-level functions over the sequence of cache
  states of a bank. It covers:
  - the viewport scan;
  - the probe / minimum-usage / rebuild policy of `GetLocalityCreateCache`;
  - the lemmas stating the eviction properties.
- `finder.dfy` (module `Finder`): class `LocalityFinder`.
  - The two banks are `array<Cache>`.
  - Ghost sequences `viewportStates` / `temporaryStates` hold the states of the banks in index
    order.
  - A ghost slot map gives every cache object its own (bank, index), so no cache object
    appears in two slots.
  - The loops of `GetLocalityInViewport` and `GetLocalityCreateCache` are proved against
    `FinderModel.ViewportScan` and `FinderModel.CreateCache`. `RecreateCache` is proved
    against `LocalityModel.Recreate` (through `ScanMwms` and `LoadAll`), and `ClearCache` and
    `ClearCacheAll` against `LocalityModel.Cleared`.

## Behaviour worth noting

- **Stored rect.** `RecreateCache` stores the expanded rect, not the query rect: the result of
  `CorrectMinimalRect` is assigned to `cache.m_rect` (line 150). The same expanded rect is the
  one `DoLoader` filters against. The rect is stored only when a world map is present.
  Otherwise the cleared cache keeps its old rect.
- **Viewport scan.** `GetLocalityInViewport` has no early exit (lines 169-170). Every viewport
  cache containing the point is probed and its usage bumped, and a later cache that selects an
  item overwrites the name left by an earlier one. The highest-indexed hitting cache
  determines the answer, not the lowest (`FinderModel.ViewportScanSpec`).
- **Temporary probe.** `GetLocalityCreateCache` returns as soon as `name` is non-empty after a
  probe (lines 182-183). When the caller passes a non-empty name, the loop therefore returns
  after the first temporary cache even if that cache missed. Every later cache is probed with
  the empty name (`FinderModel.NameAt`).

## Model

| member | source | states |
|---|---|---|
| Geometry.PointRect | search/locality_finder.cpp:227 | The query rect `m2::RectD(pt, pt)` contains the point and no other point. |
| Geometry.IntersectPointRect | search/locality_finder.cpp:223-227 | The tree filter (an item rect meets the degenerate rect at the point) agrees with `IsPointInside` on that rect. |
| LocalityModel.HitItemContainsPoint | search/locality_finder.cpp:223-227 | The item a hitting cache selects contains the point, and so does the cache's rect. |
| Geometry.Clamp | search/locality_finder.cpp:118-121 | Clamping stays within the bounds, leaves an in-range value unchanged, and moves a value only towards the bound it exceeds. |
| LocalityModel.Admit | search/locality_finder.cpp:27-58 | An item is produced iff the feature is a point, a city or a town, not yet loaded, with non-zero population, a rect meeting the loader's rect, and a name. The item carries the feature's id, population and radius rect. The preferred-language name wins over the default-language one. |
| LocalityModel.LoadOne | search/locality_finder.cpp:22-61 | One `DoLoader` call keeps rect and usage, keeps the old items as a prefix and appends at most one item; `loaded` only grows. |
| LocalityModel.LoadAll | search/locality_finder.cpp:151-156 | Running `DoLoader` over a candidate sequence keeps rect and usage and adds at most one item per candidate. |
| LocalityModel.LoadOneConsistent | search/locality_finder.cpp:40-41 | One `DoLoader` call keeps the cache invariant (loaded = the ids of the tree, ids distinct). It adds `f.id` to `loaded` exactly when it inserts, so a skipped feature is not marked loaded. |
| LocalityModel.LoadAllConsistent | search/locality_finder.cpp:58-60 | After any sequence of `DoLoader` calls, `loaded` is exactly the set of ids in the tree and no id was inserted twice. |
| LocalityModel.LoadAllSound | search/locality_finder.cpp:22-61 | `DoLoader` only appends. Rect, usage and the old items stay. Every new item is built from a feature of the input that passed every condition. |
| LocalityModel.LoadAllComplete | search/locality_finder.cpp:22-61 | Every input feature that passes the conditions other than the `loaded` check ends with its id loaded. |
| LocalityModel.Cleared | search/locality_finder.cpp:214-219 | A cleared cache keeps its rect, has usage 0, satisfies the invariant and leaves the name of every query unchanged. |
| LocalityModel.CorrectMinimalRect | search/locality_finder.cpp:114-122 | When the Mercator plane is well formed, the corrected rect lies inside it. |
| LocalityModel.ScanMwms | search/locality_finder.cpp:134-158 | The map-file loop leaves usage alone and leaves the rect either as it was or equal to the expanded rect. |
| LocalityModel.Recreate | search/locality_finder.cpp:124-159 | A rebuilt cache has usage 0 (its full characterisation is `RecreateSpec`). |
| LocalityModel.Score | search/locality_finder.cpp:81-87 | The value of an item for a point: `GetPopulationByRadius` of the distance from the item's rect centre to the point, divided by the (non-zero) population. It has no contract of its own; `BestIndex` and `SelectTieBreak` state what is proved about it. |
| LocalityModel.Probe | search/locality_finder.cpp:221-228 | A probe keeps rect, items and loaded set and the invariant. Outside the rect it changes neither cache nor name. Inside it bumps usage by one modulo 2^64. |
| LocalityModel.ScanMwmsSpec | search/locality_finder.cpp:134-158 | The map-file loop keeps the invariant and leaves usage alone. It sets the rect to the expanded rect iff some map is the world map. It inserts only items of eligible world-map candidates for the expanded rect, and every eligible candidate's id is loaded. |
| LocalityModel.RecreateSpec | search/locality_finder.cpp:124-159 | A rebuilt cache has usage 0 and satisfies the invariant. Every item comes from an eligible world-map candidate for the expanded rect, and every eligible candidate's id is loaded. Its rect is the expanded rect when a world map exists and is otherwise unchanged. |
| LocalityModel.CorrectMinimalRectCovers | search/locality_finder.cpp:114-122 | Suppose the query rect is well formed and in the plane, and each expansion square contains its corner. Then the corrected rect contains the query rect and lies in the plane. |
| LocalityModel.BestIndex | search/locality_finder.cpp:79-93 | The selected item is visited, beats `DBL_MAX`, is strictly better than every earlier visited item and no worse than any later one. With no selection, every visited item scores at least `DBL_MAX`. |
| LocalityModel.SelectTieBreak | search/locality_finder.cpp:88 | Strict `<`: a later visited item tying with an earlier one is never selected. |
| LocalityModel.FirstBestUnique | search/locality_finder.cpp:79-93 | At most one index has the selection property, and it is the one chosen. |
| LocalityCache.Cache.Clear | search/locality_finder.cpp:214-219 | Usage 0, empty tree, empty loaded set, rect unchanged; the invariant holds. |
| LocalityCache.Cache.GetLocality | search/locality_finder.cpp:221-228 | A point outside the rect changes neither cache nor name. A point inside bumps usage by exactly one (mod 2^64), keeps the contents, and sets the name the selector chooses. |
| LocalityCache.LocalitySelector.constructor | search/locality_finder.cpp:74-77 | The functor starts with the caller's name and best value `DBL_MAX`. |
| LocalityCache.LocalitySelector.Visit | search/locality_finder.cpp:79-93 | An item strictly below the best value becomes the best and writes its name. Otherwise nothing changes. |
| LocalityCache.SelectInTree | search/locality_finder.cpp:227 | Visiting the items containing the point in tree order leaves the name of `BestIndex`, or the caller's name when there is none. |
| LocalityCache.DoLoader | search/locality_finder.cpp:22-61 | The skip chain in the source's order, then insertion of item and id, equals `LoadOne`; the cache invariant is kept. |
| FinderModel.ViewportScan | search/locality_finder.cpp:167-171 | The viewport scan keeps the bank size (its full characterisation is `ViewportScanSpec`). |
| FinderModel.ViewportScanSpec | search/locality_finder.cpp:167-171 | Every viewport cache containing the point has its usage bumped, the others are unchanged. The name is that of the highest-indexed cache that selects an item, or unchanged when none does. |
| FinderModel.ProbeUntilHit | search/locality_finder.cpp:178-183 | The probing loop touches caches up to the one where it returned and leaves the rest untouched; it returned on a non-empty name. |
| FinderModel.MinUsageScan | search/locality_finder.cpp:176-189 | Starting from (`SIZE_MAX`, 0) with strict `<`, the result is the first index of minimum usage. If every usage is `SIZE_MAX`, the index stays 0. |
| FinderModel.ProbeUntilHitFirstAnswer | search/locality_finder.cpp:178-183 | The loop returns at exactly the first cache whose probe leaves a non-empty name, with that name. |
| FinderModel.ProbedPrefixStep | search/locality_finder.cpp:178-189 | One iteration: a hit ends the loop with caches up to it touched. A miss extends the probed prefix, and the minimum moves to this cache only on a strictly smaller usage. |
| FinderModel.CreateCache | search/locality_finder.cpp:173-195 | `GetLocalityCreateCache` keeps the bank size, and every temporary cache but at most one keeps its rect, items and loaded set. |
| FinderModel.CreateCacheByProbes | search/locality_finder.cpp:173-195 | From the loop's outcome: either the found name is returned with the probed caches, or the first minimum-usage cache is rebuilt around the point and probed again. |
| FinderModel.ProbeStopsAtAnswer | search/locality_finder.cpp:181-183 | With an empty name on entry, a temporary cache that answers bounds the index at which the loop returns. |
| FinderModel.CreateCacheHitNoRebuild | search/locality_finder.cpp:181-183 | A hit during probing means no rebuild. Every temporary cache keeps rect, items and loaded set, its usage moves by at most one bump, and the name is non-empty. |
| FinderModel.CreateCacheEvicts | search/locality_finder.cpp:185-194 | When every cache misses, exactly one is rebuilt. It is the lowest index of minimum post-probe usage, or 0 when all usages are `SIZE_MAX`. It is rebuilt around the point and queried. Every other cache only had its probe. |
| FinderModel.NoRebuildWhenAnswered | search/locality_finder.cpp:173-183 | A query (with an empty name) that some temporary cache answers rebuilds nothing and returns a non-empty name. |
| LocalityCache.Cache.constructor | search/locality_finder.cpp:109-112 | A default-constructed cache, as the finder's two cache arrays hold them from construction: empty, usage 0, and a rect that contains no point. |
| Finder.NewCaches | search/locality_finder.cpp:109-112 | A bank of `n` distinct new caches in the default state, each given its own (bank, index) slot. |
| Finder.LocalityFinder.constructor | search/locality_finder.cpp:109-112 | `m_lang` starts at 0. Both banks consist of distinct new caches in the default state, and the invariant holds. |
| Finder.LocalityFinder.RecreateCache | search/locality_finder.cpp:124-159 | The nested map and candidate loops leave the cache in the state `Recreate` describes, with the invariant kept. |
| Finder.LocalityFinder.SetViewportByIndex | search/locality_finder.cpp:161-165 | For `idx` below the viewport count, only viewport cache `idx` is rebuilt. The temporary bank is unchanged. |
| Finder.LocalityFinder.GetLocalityInViewport | search/locality_finder.cpp:167-171 | The viewport bank and the name become `ViewportScan` of the old bank. The temporary bank is unchanged. |
| Finder.LocalityFinder.ProbeTemporary | search/locality_finder.cpp:176-190 | The probing loop returns at the first answer. Otherwise it runs through the bank with `minUsageIdx` equal to the first minimum-usage index. Probed caches are touched, the others untouched. |
| Finder.LocalityFinder.GetLocalityCreateCache | search/locality_finder.cpp:173-195 | The temporary bank and the name become `CreateCache` of the old bank. The viewport bank is unchanged. |
| Finder.LocalityFinder.ClearCache | search/locality_finder.cpp:206-210 | For `idx` below the viewport count, only viewport cache `idx` is cleared. |
| Finder.LocalityFinder.ClearCacheAll | search/locality_finder.cpp:197-204 | Every viewport cache and every temporary cache is cleared; bank sizes are unchanged. |

## Left out

- The map-file plumbing of `RecreateCache` is abstracted to a sequence of registered map
  files. Each has a world flag and a given function from the expanded rect to the candidate
  features its covering intervals yield, in scan order. This stands for `MwmLock`,
  `CoveringGetter`, `ScaleIndex` and `FeaturesVector`. How the covering intervals are
  computed from the rect and how a feature is read from disk are not modelled. A feature
  reached through overlapping intervals simply appears twice.
- `GetMwmInfo` is re-read on every rebuild in the source. In the model the list of
  registered map files is a constant of the finder, fixed for its lifetime: registering or
  deregistering maps between calls is not modelled.
- The floating-point geodesy is replaced by given functions:
  - `GetRadiusByPopulation`;
  - `GetPopulationByRadius`;
  - `ms::DistanceOnEarth` after the Mercator-to-latitude/longitude conversions;
  - `RectByCenterXYAndSizeInMeters`.
  The bounds of the Mercator plane are also given. Coordinates and values are reals without
  rounding, and no metric fact about these functions is proved.
- `IsLocalityChecker` and `ftypes::GetPopulation` are replaced by the fields `kind` and
  `population` of a feature.
- The spatial tree `m4::Tree` is a sequence in insertion order, and `ForEachInRect` visits
  the items meeting the query rect in that order. The visit order of the real tree is not
  modelled. Since ties keep the first visited item, the order only matters between items of
  equal value.
- locality_finder.hpp is not part of this model. This affects three things:
  - `MAX_VIEWPORT_COUNT` and `MAX_CACHE_TMP_COUNT` are constructor parameters. The temporary
    count is required to be positive, because the rebuild indexes the bank.
  - The setter of `m_lang` is not modelled. `lang` is a field that no modelled operation
    changes.
  - The default state of a `Cache` is taken to be the empty `m2::RectD`, usage 0 and no
    items.
- `ASSERT_LESS(idx, MAX_VIEWPORT_COUNT)` (lines 163, 208) is a `requires` on
  `SetViewportByIndex` and `ClearCache`.
- Thread safety is not modelled. This includes the mutation of `mutable` cache fields
  through `const` methods.
- generator/sponsored_dataset.hpp and routing/road_graph_router.hpp are not part of this
  model. They hold declarations only.

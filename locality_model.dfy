/** Value-level model of one locality cache (LocalityFinder::Cache in search/locality_finder.cpp):
  * the features it is built from, the filter-and-insert pass of DoLoader, the rebuild done by
  * RecreateCache and the scoring rule of DoSelectLocality. The imperative classes in
  * locality_cache.dfy and finder.dfy are proved against these functions. */
module LocalityModel {
  import opened Geometry

  datatype Option<T> = None | Some(value: T)

  /** MAX_RADIUS_CITY, in metres. */
  const MAX_RADIUS_CITY: real := 30000.0

  /** size_t is 64 bits wide: the usage counter wraps around at SIZE_LIMIT. */
  const SIZE_LIMIT: nat := 0x1_0000_0000_0000_0000
  /** numeric_limits<size_t>::max(), the start value of the minimum-usage search. */
  const SIZE_MAX: nat := SIZE_LIMIT - 1

  /** numeric_limits<double>::max() = (2^53 - 1) * 2^971, the start value of m_bestValue. */
  const DOUBLE_MAX: real := 179769313486231570814527423731704356798070567525844996598917476803157260780028538760589558632766878171540458953514382464234321326889464182768467546703537516986049910576551282076245490090389328944075868508455133942304583236903222948165808559332123348274797826204144723168738177180919299881250404026184124858368.0

  /** ftypes::Type, as reported by IsLocalityChecker for a feature. */
  datatype LocalityType = NoLocality | Country | State | City | Town | Village

  /** Index of a feature inside its map file (uint32_t). */
  type FeatureId = nat

  /** Language code (int8_t); 0 is the default language. */
  type Lang = int

  /** What DoLoader reads of a feature: its id, whether its geometry is a point, its locality
    * classification, its population attribute, its centre and its names by language. */
  datatype Feature = Feature(
    id: FeatureId,
    isPoint: bool,
    kind: LocalityType,
    population: nat,
    center: Point,
    names: map<Lang, string>)

  type Population = n: nat | n > 0 witness 1

  /** LocalityItem: the covering rect derived from the population radius, the chosen name,
    * the (non-zero) population and the source feature id. */
  datatype LocalityItem = LocalityItem(rect: Rect, name: string, population: Population, id: FeatureId)

  /** The geodesy and population formulas the finder calls but does not define, as given
    * functions: ftypes::GetRadiusByPopulation, ftypes::GetPopulationByRadius,
    * ms::DistanceOnEarth (applied to the Mercator points after conversion to latitude and
    * longitude), MercatorBounds::RectByCenterXYAndSizeInMeters, and the bounds of the
    * Mercator plane used by MercatorBounds::ClampX / ClampY. */
  datatype Geodesy = Geodesy(
    radiusByPopulation: nat -> real,
    populationByRadius: real -> real,
    distanceOnEarth: (Point, Point) -> real,
    rectAround: (Point, real) -> Rect,
    world: Rect)

  /** One registered map file: whether its header says it is the world map, and, for a
    * (expanded) query rect, the features that the covering intervals of that rect yield from
    * its scale index, in scan order (a feature may come more than once when intervals
    * overlap). */
  datatype Mwm = Mwm(isWorld: bool, candidates: Rect -> seq<Feature>)

  /** The value held by one Cache: covering rect, spatial tree (in insertion order), ids
    * already loaded, usage counter. */
  datatype CacheState = CacheState(rect: Rect, usage: nat, tree: seq<LocalityItem>, loaded: set<FeatureId>)

  /** A default-constructed Cache: the empty m2::RectD (minimum corner at +DOUBLE_MAX, maximum
    * corner at -DOUBLE_MAX, so no point is inside), usage 0, no items, nothing loaded. */
  const NewCacheState: CacheState := CacheState(Rect(DOUBLE_MAX, DOUBLE_MAX, -DOUBLE_MAX, -DOUBLE_MAX), 0, [], {})

  // ---------------------------------------------------------------------------------------
  // The cache invariant

  function Ids(items: seq<LocalityItem>): set<FeatureId> {
    set i | 0 <= i < |items| :: items[i].id
  }

  ghost predicate DistinctIds(items: seq<LocalityItem>) {
    forall i, j :: 0 <= i < j < |items| ==> items[i].id != items[j].id
  }

  /** What every cache keeps: the usage counter fits in a size_t, `loaded` holds exactly the
    * ids of the items in the tree, and no id is in the tree twice. */
  ghost predicate Consistent(c: CacheState) {
    c.usage < SIZE_LIMIT && c.loaded == Ids(c.tree) && DistinctIds(c.tree)
  }

  // ---------------------------------------------------------------------------------------
  // DoLoader

  function ItemRect(f: Feature, geo: Geodesy): Rect {
    geo.rectAround(f.center, geo.radiusByPopulation(f.population))
  }

  predicate HasName(f: Feature, lang: Lang) {
    lang in f.names || 0 in f.names
  }

  /** The name DoLoader stores: the preferred language if present, else the default one. */
  function PickName(f: Feature, lang: Lang): string
    requires HasName(f, lang)
  {
    if lang in f.names then f.names[lang] else f.names[0]
  }

  /** All of DoLoader's conditions except the `loaded` check. */
  predicate Eligible(f: Feature, rect: Rect, lang: Lang, geo: Geodesy) {
    f.isPoint && (f.kind == City || f.kind == Town) && f.population > 0 &&
    IsIntersect(ItemRect(f, geo), rect) && HasName(f, lang)
  }

  function MakeItem(f: Feature, lang: Lang, geo: Geodesy): LocalityItem
    requires f.population > 0 && HasName(f, lang)
  {
    LocalityItem(ItemRect(f, geo), PickName(f, lang), f.population, f.id)
  }

  /** The chain of early returns of DoLoader::operator(), in the source's order: the item it
    * would insert, or None when it skips the feature. */
  function Admit(f: Feature, loaded: set<FeatureId>, rect: Rect, lang: Lang, geo: Geodesy): (r: Option<LocalityItem>)
    ensures r.Some? <==> Eligible(f, rect, lang, geo) && f.id !in loaded
    ensures r.Some? ==> r.value.id == f.id && r.value.population == f.population
    ensures r.Some? ==> r.value.rect == ItemRect(f, geo)
    ensures r.Some? && lang in f.names ==> r.value.name == f.names[lang]
    ensures r.Some? && lang !in f.names ==> r.value.name == f.names[0]
  {
    if !f.isPoint then None
    else if !(f.kind == City || f.kind == Town) then None
    else if f.id in loaded then None
    else if f.population == 0 then None
    else
      var rect' := ItemRect(f, geo);
      if !IsIntersect(rect', rect) then None
      else if lang in f.names then Some(LocalityItem(rect', f.names[lang], f.population, f.id))
      else if 0 in f.names then Some(LocalityItem(rect', f.names[0], f.population, f.id))
      else None
  }

  /** The cache after one DoLoader call on feature `f`. */
  function LoadOne(c: CacheState, f: Feature, rect: Rect, lang: Lang, geo: Geodesy): (r: CacheState)
    ensures r.rect == c.rect && r.usage == c.usage
    ensures c.loaded <= r.loaded && |c.tree| <= |r.tree| <= |c.tree| + 1 && r.tree[..|c.tree|] == c.tree
  {
    match Admit(f, c.loaded, rect, lang, geo)
    case None => c
    case Some(item) => c.(tree := c.tree + [item], loaded := c.loaded + {item.id})
  }

  /** The cache after DoLoader has seen every feature of `fs`, in order. */
  function LoadAll(c: CacheState, fs: seq<Feature>, rect: Rect, lang: Lang, geo: Geodesy): (r: CacheState)
    ensures r.rect == c.rect && r.usage == c.usage && |r.tree| <= |c.tree| + |fs|
    decreases |fs|
  {
    if |fs| == 0 then c
    else LoadOne(LoadAll(c, fs[..|fs| - 1], rect, lang, geo), fs[|fs| - 1], rect, lang, geo)
  }

  // ---------------------------------------------------------------------------------------
  // Cache::Clear, CorrectMinimalRect, RecreateCache

  /** Cache::Clear: usage, tree and loaded set are reset; the rect is kept. A cleared cache
    * satisfies the invariant and leaves the name of every query as it was. */
  function Cleared(c: CacheState): (r: CacheState)
    ensures Consistent(r) && r.rect == c.rect && r.usage == 0
    ensures forall p, name, geo :: Probe(r, p, name, geo).1 == name
  {
    c.(usage := 0, tree := [], loaded := {})
  }

  /** LocalityFinder::CorrectMinimalRect: the rect grown by MAX_RADIUS_CITY around its left-top
    * and right-bottom corners, clamped to the Mercator plane. */
  function CorrectMinimalRect(rect: Rect, geo: Geodesy): (r: Rect)
    ensures geo.world.minX <= geo.world.maxX && geo.world.minY <= geo.world.maxY ==> ContainsRect(geo.world, r)
  {
    var rlt := geo.rectAround(LeftTop(rect), MAX_RADIUS_CITY);
    var rrb := geo.rectAround(RightBottom(rect), MAX_RADIUS_CITY);
    Rect(Clamp(rlt.minX, geo.world.minX, geo.world.maxX),
         Clamp(rrb.minY, geo.world.minY, geo.world.maxY),
         Clamp(rrb.maxX, geo.world.minX, geo.world.maxX),
         Clamp(rlt.maxY, geo.world.minY, geo.world.maxY))
  }

  /** The loop of RecreateCache over the registered map files: each world map sets the cache
    * rect to the expanded rect `r` and runs DoLoader over its candidates for `r`; others are
    * skipped. */
  function ScanMwms(c: CacheState, mwms: seq<Mwm>, r: Rect, lang: Lang, geo: Geodesy): (s: CacheState)
    ensures s.usage == c.usage && (s.rect == c.rect || s.rect == r)
    decreases |mwms|
  {
    if |mwms| == 0 then c
    else
      var c' := ScanMwms(c, mwms[..|mwms| - 1], r, lang, geo);
      var m := mwms[|mwms| - 1];
      if m.isWorld then LoadAll(c'.(rect := r), m.candidates(r), r, lang, geo) else c'
  }

  /** LocalityFinder::RecreateCache(cache, rect). */
  function Recreate(c: CacheState, rect: Rect, mwms: seq<Mwm>, lang: Lang, geo: Geodesy): (s: CacheState)
    ensures s.usage == 0
  {
    ScanMwms(Cleared(c), mwms, CorrectMinimalRect(rect, geo), lang, geo)
  }

  // ---------------------------------------------------------------------------------------
  // Cache::GetLocality and DoSelectLocality

  /** `++m_usage` on a size_t. */
  function IncUsage(u: nat): nat {
    (u + 1) % SIZE_LIMIT
  }

  /** The tree query ForEachInRect(m2::RectD(pt, pt)) visits exactly these items. */
  predicate InRange(item: LocalityItem, p: Point) {
    IsIntersect(item.rect, PointRect(p))
  }

  /** DoSelectLocality's value: GetPopulationByRadius(distance from the item's rect centre to
    * the point) / population. Lower is better. */
  function Score(item: LocalityItem, p: Point, geo: Geodesy): real {
    geo.populationByRadius(geo.distanceOnEarth(Center(item.rect), p)) / (item.population as real)
  }

  /** Item `k` is the one DoSelectLocality ends on: it is visited, its value beats the start
    * value DOUBLE_MAX, every earlier visited item has a strictly larger value and no later
    * visited item has a smaller one. */
  ghost predicate FirstBest(items: seq<LocalityItem>, p: Point, geo: Geodesy, k: nat) {
    k < |items| && InRange(items[k], p) && Score(items[k], p, geo) < DOUBLE_MAX &&
    (forall j :: 0 <= j < k && InRange(items[j], p) ==> Score(items[j], p, geo) > Score(items[k], p, geo)) &&
    (forall j :: k < j < |items| && InRange(items[j], p) ==> Score(items[j], p, geo) >= Score(items[k], p, geo))
  }

  /** The index of the item whose name DoSelectLocality leaves behind after visiting `items`
    * in order with its strict `value < m_bestValue` test, or None when it never fires. */
  function BestIndex(items: seq<LocalityItem>, p: Point, geo: Geodesy): (r: Option<nat>)
    ensures r.Some? ==> FirstBest(items, p, geo, r.value)
    ensures r.None? ==> forall j :: 0 <= j < |items| && InRange(items[j], p) ==> Score(items[j], p, geo) >= DOUBLE_MAX
    decreases |items|
  {
    if |items| == 0 then None
    else
      var n := |items| - 1;
      var b := BestIndex(items[..n], p, geo);
      assert forall j :: 0 <= j < n ==> items[..n][j] == items[j];
      var best := if b.Some? then Score(items[b.value], p, geo) else DOUBLE_MAX;
      if InRange(items[n], p) && Score(items[n], p, geo) < best then Some(n) else b
  }

  /** The name after DoSelectLocality has visited the tree: the best item's name, or the name
    * passed in when no item was selected. */
  function SelectedName(items: seq<LocalityItem>, p: Point, name: string, geo: Geodesy): string {
    match BestIndex(items, p, geo)
    case Some(k) => items[k].name
    case None => name
  }

  /** The cache after Cache::GetLocality(pt, ..): usage bumped exactly when the point is inside. */
  function Touched(c: CacheState, p: Point): CacheState {
    if IsPointInside(c.rect, p) then c.(usage := IncUsage(c.usage)) else c
  }

  /** Cache::GetLocality(pt, name): the new cache and the new name. */
  function Probe(c: CacheState, p: Point, name: string, geo: Geodesy): (r: (CacheState, string))
    ensures SameContents(r.0, c) && (Consistent(c) ==> Consistent(r.0))
    ensures !IsPointInside(c.rect, p) ==> r == (c, name)
    ensures IsPointInside(c.rect, p) ==> r.0.usage == IncUsage(c.usage)
  {
    if IsPointInside(c.rect, p) then (Touched(c, p), SelectedName(c.tree, p, name, geo))
    else (c, name)
  }

  /** The cache answers the point: the point is inside its rect and some item gets selected. */
  predicate Hits(c: CacheState, p: Point, geo: Geodesy) {
    IsPointInside(c.rect, p) && BestIndex(c.tree, p, geo).Some?
  }

  /** The name a hitting cache writes, whatever name it was given. */
  function HitName(c: CacheState, p: Point, geo: Geodesy): string
    requires Hits(c, p, geo)
  {
    c.tree[BestIndex(c.tree, p, geo).value].name
  }

  /** Same rect, items and loaded set: at most the usage counter differs. */
  predicate SameContents(a: CacheState, b: CacheState) {
    a.rect == b.rect && a.tree == b.tree && a.loaded == b.loaded
  }

  // ---------------------------------------------------------------------------------------
  // Lemmas

  lemma IdsSnoc(items: seq<LocalityItem>, item: LocalityItem)
    ensures Ids(items + [item]) == Ids(items) + {item.id}
  {
    var s := items + [item];
    forall x | x in Ids(s) ensures x in Ids(items) + {item.id} {
      var i :| 0 <= i < |s| && s[i].id == x;
      if i < |items| { assert items[i] == s[i]; }
    }
    forall x | x in Ids(items) ensures x in Ids(s) {
      var i :| 0 <= i < |items| && items[i].id == x;
      assert s[i] == items[i];
    }
    assert s[|items|] == item;
  }

  /** One DoLoader call keeps the cache invariant: the id it inserts was not yet loaded, hence
    * not yet in the tree. */
  lemma LoadOneConsistent(c: CacheState, f: Feature, rect: Rect, lang: Lang, geo: Geodesy)
    requires Consistent(c)
    ensures Consistent(LoadOne(c, f, rect, lang, geo))
    ensures LoadOne(c, f, rect, lang, geo).loaded == c.loaded + (if Admit(f, c.loaded, rect, lang, geo).Some? then {f.id} else {})
  {
    match Admit(f, c.loaded, rect, lang, geo)
    case None =>
    case Some(item) =>
      IdsSnoc(c.tree, item);
      var s := c.tree + [item];
      forall i, j | 0 <= i < j < |s| ensures s[i].id != s[j].id {
        if j == |c.tree| {
          assert s[i] == c.tree[i];
          assert s[i].id in Ids(c.tree);
        } else {
          assert s[i] == c.tree[i] && s[j] == c.tree[j];
        }
      }
  }

  /** After any sequence of DoLoader calls: `loaded` is exactly the set of ids in the tree and
    * no id was inserted twice, even when a feature is met several times. */
  lemma {:induction false} LoadAllConsistent(c: CacheState, fs: seq<Feature>, rect: Rect, lang: Lang, geo: Geodesy)
    requires Consistent(c)
    ensures Consistent(LoadAll(c, fs, rect, lang, geo))
  {
    if |fs| > 0 {
      LoadAllConsistent(c, fs[..|fs| - 1], rect, lang, geo);
      LoadOneConsistent(LoadAll(c, fs[..|fs| - 1], rect, lang, geo), fs[|fs| - 1], rect, lang, geo);
    }
  }

  /** `item` is what DoLoader builds from some eligible feature of `fs`. */
  ghost predicate FromCandidate(item: LocalityItem, fs: seq<Feature>, rect: Rect, lang: Lang, geo: Geodesy) {
    exists f :: f in fs && Eligible(f, rect, lang, geo) && item == MakeItem(f, lang, geo)
  }

  /** `item` is what DoLoader builds from some eligible candidate of a world map of `mwms`. */
  ghost predicate FromWorld(item: LocalityItem, mwms: seq<Mwm>, rect: Rect, lang: Lang, geo: Geodesy) {
    exists m, f :: m in mwms && m.isWorld && f in m.candidates(rect) && Eligible(f, rect, lang, geo) &&
                   item == MakeItem(f, lang, geo)
  }

  /** DoLoader only appends, and every appended item comes from a feature of `fs` that passed
    * all of DoLoader's conditions, named by MakeItem's language preference. Rect and usage stay. */
  lemma {:induction false} LoadAllSound(c: CacheState, fs: seq<Feature>, rect: Rect, lang: Lang, geo: Geodesy)
    ensures var r := LoadAll(c, fs, rect, lang, geo); r.rect == c.rect && r.usage == c.usage
    ensures var r := LoadAll(c, fs, rect, lang, geo); c.loaded <= r.loaded
    ensures var r := LoadAll(c, fs, rect, lang, geo); |c.tree| <= |r.tree| && r.tree[..|c.tree|] == c.tree
    ensures var r := LoadAll(c, fs, rect, lang, geo);
      forall i :: |c.tree| <= i < |r.tree| ==> FromCandidate(r.tree[i], fs, rect, lang, geo)
  {
    if |fs| > 0 {
      var fs' := fs[..|fs| - 1];
      var f := fs[|fs| - 1];
      LoadAllSound(c, fs', rect, lang, geo);
      var r' := LoadAll(c, fs', rect, lang, geo);
      var r := LoadAll(c, fs, rect, lang, geo);
      assert r == LoadOne(r', f, rect, lang, geo);
      assert r'.loaded <= r.loaded;
      assert r.tree == r'.tree || r.tree == r'.tree + [Admit(f, r'.loaded, rect, lang, geo).value];
      forall i | |c.tree| <= i < |r.tree|
        ensures FromCandidate(r.tree[i], fs, rect, lang, geo)
      {
        if i < |r'.tree| {
          assert r.tree[i] == r'.tree[i];
          var g :| g in fs' && Eligible(g, rect, lang, geo) && r'.tree[i] == MakeItem(g, lang, geo);
          assert g in fs;
          assert FromCandidate(r.tree[i], fs, rect, lang, geo);
        } else {
          assert r.tree[i] == Admit(f, r'.loaded, rect, lang, geo).value;
          assert f in fs;
          assert FromCandidate(r.tree[i], fs, rect, lang, geo);
        }
      }
      assert r.tree[..|c.tree|] == r'.tree[..|c.tree|];
    } else {
      assert LoadAll(c, fs, rect, lang, geo) == c;
    }
  }

  /** DoLoader misses no locality: every feature of `fs` that passes the conditions other than
    * the `loaded` check ends up with its id loaded. */
  lemma {:induction false} LoadAllComplete(c: CacheState, fs: seq<Feature>, rect: Rect, lang: Lang, geo: Geodesy)
    ensures var r := LoadAll(c, fs, rect, lang, geo);
      c.loaded <= r.loaded &&
      forall f :: f in fs && Eligible(f, rect, lang, geo) ==> f.id in r.loaded
  {
    if |fs| > 0 {
      var fs' := fs[..|fs| - 1];
      LoadAllComplete(c, fs', rect, lang, geo);
      var r' := LoadAll(c, fs', rect, lang, geo);
      var r := LoadAll(c, fs, rect, lang, geo);
      assert r == LoadOne(r', fs[|fs| - 1], rect, lang, geo);
      assert r'.loaded <= r.loaded;
      assert fs == fs' + [fs[|fs| - 1]];
    }
  }

  /** The map-file loop of RecreateCache keeps the invariant and leaves usage alone; it sets the
    * rect to `r` exactly when a world map is present; every item it adds comes from an eligible
    * candidate of a world map for `r`, and every such candidate has its id loaded. */
  lemma {:induction false} ScanMwmsSpec(c: CacheState, mwms: seq<Mwm>, r: Rect, lang: Lang, geo: Geodesy)
    requires Consistent(c) && c.tree == []
    ensures var s := ScanMwms(c, mwms, r, lang, geo);
      Consistent(s) && s.usage == c.usage &&
      s.rect == (if exists m :: m in mwms && m.isWorld then r else c.rect) &&
      (forall i :: 0 <= i < |s.tree| ==> FromWorld(s.tree[i], mwms, r, lang, geo)) &&
      (forall m, f :: m in mwms && m.isWorld && f in m.candidates(r) && Eligible(f, r, lang, geo) ==> f.id in s.loaded)
  {
    if |mwms| > 0 {
      var pre := mwms[..|mwms| - 1];
      var m := mwms[|mwms| - 1];
      ScanMwmsSpec(c, pre, r, lang, geo);
      var s' := ScanMwms(c, pre, r, lang, geo);
      var s := ScanMwms(c, mwms, r, lang, geo);
      assert mwms == pre + [m];
      if m.isWorld {
        var base := s'.(rect := r);
        assert s == LoadAll(base, m.candidates(r), r, lang, geo);
        LoadAllConsistent(base, m.candidates(r), r, lang, geo);
        LoadAllSound(base, m.candidates(r), r, lang, geo);
        LoadAllComplete(base, m.candidates(r), r, lang, geo);
        forall i | 0 <= i < |s.tree| ensures FromWorld(s.tree[i], mwms, r, lang, geo) {
          if i < |base.tree| {
            assert s.tree[i] == s'.tree[i];
            var m', f :| m' in pre && m'.isWorld && f in m'.candidates(r) && Eligible(f, r, lang, geo) &&
                         s'.tree[i] == MakeItem(f, lang, geo);
            assert m' in mwms;
          } else {
            assert FromCandidate(s.tree[i], m.candidates(r), r, lang, geo);
            var f :| f in m.candidates(r) && Eligible(f, r, lang, geo) && s.tree[i] == MakeItem(f, lang, geo);
            assert m in mwms;
          }
        }
        assert m in mwms;
      } else {
        assert s == s';
        assert (exists m' :: m' in mwms && m'.isWorld) == (exists m' :: m' in pre && m'.isWorld);
      }
    }
  }

  /** RecreateCache: a rebuilt cache has usage 0, keeps the invariant, holds only items of
    * eligible world-map candidates for the expanded rect, and has the id of every such
    * candidate loaded; its rect becomes the expanded rect when a
    * world map is present and is otherwise left as it was. */
  lemma RecreateSpec(c: CacheState, rect: Rect, mwms: seq<Mwm>, lang: Lang, geo: Geodesy)
    ensures var s := Recreate(c, rect, mwms, lang, geo);
      var r := CorrectMinimalRect(rect, geo);
      Consistent(s) && s.usage == 0 &&
      s.rect == (if exists m :: m in mwms && m.isWorld then r else c.rect) &&
      (forall i :: 0 <= i < |s.tree| ==> FromWorld(s.tree[i], mwms, r, lang, geo)) &&
      (forall m, f :: m in mwms && m.isWorld && f in m.candidates(r) && Eligible(f, r, lang, geo) ==> f.id in s.loaded)
  {
    assert Ids([]) == {};
    ScanMwmsSpec(Cleared(c), mwms, CorrectMinimalRect(rect, geo), lang, geo);
  }

  /** CorrectMinimalRect only grows a rect lying in the Mercator plane: if the geodesy places
    * each corner inside the square built around it, the corrected rect contains the original
    * one, and it always lies in the (well-formed) plane. */
  lemma CorrectMinimalRectCovers(rect: Rect, geo: Geodesy)
    requires rect.minX <= rect.maxX && rect.minY <= rect.maxY
    requires ContainsRect(geo.world, rect)
    requires IsPointInside(geo.rectAround(LeftTop(rect), MAX_RADIUS_CITY), LeftTop(rect))
    requires IsPointInside(geo.rectAround(RightBottom(rect), MAX_RADIUS_CITY), RightBottom(rect))
    ensures ContainsRect(CorrectMinimalRect(rect, geo), rect)
    ensures ContainsRect(geo.world, CorrectMinimalRect(rect, geo))
  {
  }

  /** On equal values the strict comparison keeps the earlier item: a later item tying with an
    * earlier visited one is never selected. */
  lemma SelectTieBreak(items: seq<LocalityItem>, p: Point, geo: Geodesy, i: nat, j: nat)
    requires i < j < |items|
    requires InRange(items[i], p) && InRange(items[j], p)
    requires Score(items[i], p, geo) == Score(items[j], p, geo)
    ensures BestIndex(items, p, geo) != Some(j)
  {
  }

  /** The item a hitting cache selects contains the point: the tree's point query and the
    * cache's containment test use the same inclusive borders. */
  lemma HitItemContainsPoint(c: CacheState, p: Point, geo: Geodesy)
    requires Hits(c, p, geo)
    ensures IsPointInside(c.rect, p)
    ensures IsPointInside(c.tree[BestIndex(c.tree, p, geo).value].rect, p)
  {
    IntersectPointRect(c.tree[BestIndex(c.tree, p, geo).value].rect, p);
  }

  /** The selected item is unique: any index with the FirstBest property is the one chosen. */
  lemma FirstBestUnique(items: seq<LocalityItem>, p: Point, geo: Geodesy, k: nat)
    requires FirstBest(items, p, geo, k)
    ensures BestIndex(items, p, geo) == Some(k)
  {
  }
}

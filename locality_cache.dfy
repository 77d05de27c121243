/** The mutable pieces of search/locality_finder.cpp below LocalityFinder: LocalityFinder::Cache
  * (whose fields GetLocality, Clear and DoLoader update in place), the DoSelectLocality functor
  * with its running best value, the tree query that drives it, and the DoLoader functor.
  * Each is proved against the value-level functions of LocalityModel. */
module LocalityCache {
  import opened Geometry
  import opened LocalityModel

  /** LocalityFinder::Cache: covering rect, spatial tree of items (kept in insertion order),
    * ids already loaded, usage counter. */
  class Cache {
    var rect: Rect
    var usage: nat
    var tree: seq<LocalityItem>
    var loaded: set<FeatureId>

    function State(): CacheState
      reads this
    {
      CacheState(rect, usage, tree, loaded)
    }

    ghost predicate Valid()
      reads this
    {
      Consistent(State())
    }

    /** A new cache (NewCacheState): no point is inside its rect. */
    constructor ()
      ensures Valid()
      ensures State() == NewCacheState
      ensures forall p :: !IsPointInside(rect, p)
    {
      rect := Rect(DOUBLE_MAX, DOUBLE_MAX, -DOUBLE_MAX, -DOUBLE_MAX);
      usage := 0;
      tree := [];
      loaded := {};
    }

    /** Cache::Clear: usage 0, empty tree, empty loaded set; the rect is not touched. */
    method Clear()
      modifies this
      ensures Valid()
      ensures usage == 0 && tree == [] && loaded == {} && rect == old(rect)
      ensures State() == Cleared(old(State()))
    {
      usage := 0;
      tree := [];
      loaded := {};
    }

    /** Cache::GetLocality(pt, name). A point outside the rect changes neither the cache nor the
      * name. A point inside bumps the usage by exactly one (modulo 2^64) and lets
      * DoSelectLocality pick the name among the items containing the point. */
    method GetLocality(p: Point, name: string, geo: Geodesy) returns (name': string)
      requires Valid()
      modifies this
      ensures Valid()
      ensures (State(), name') == Probe(old(State()), p, name, geo)
      ensures !IsPointInside(old(rect), p) ==> name' == name && State() == old(State())
      ensures IsPointInside(old(rect), p) ==>
        usage == IncUsage(old(usage)) && SameContents(State(), old(State())) &&
        name' == SelectedName(tree, p, name, geo)
    {
      name' := name;
      if !IsPointInside(rect, p) {
        return;
      }
      usage := (usage + 1) % SIZE_LIMIT;
      name' := SelectInTree(tree, p, name, geo);
    }
  }

  /** DoSelectLocality: the name being written and the best value so far, updated by each
    * visited item. */
  class LocalitySelector {
    var name: string
    const point: Point
    const geo: Geodesy
    var best: real

    constructor (name: string, p: Point, geo: Geodesy)
      ensures this.name == name && point == p && this.geo == geo && best == DOUBLE_MAX
    {
      this.name := name;
      point := p;
      this.geo := geo;
      best := DOUBLE_MAX;
    }

    /** DoSelectLocality::operator(): an item whose value is strictly below the best so far
      * becomes the best and writes its name; otherwise nothing changes. */
    method Visit(item: LocalityItem)
      modifies this
      ensures Score(item, point, geo) < old(best) ==> best == Score(item, point, geo) && name == item.name
      ensures Score(item, point, geo) >= old(best) ==> best == old(best) && name == old(name)
    {
      var c := Center(item.rect);
      var d := geo.distanceOnEarth(c, point);
      var value := geo.populationByRadius(d) / (item.population as real);
      if value < best {
        best := value;
        name := item.name;
      }
    }
  }

  /** m_tree.ForEachInRect(m2::RectD(pt, pt), DoSelectLocality(name, pt)): the items whose rect
    * contains the point are visited in tree order; the result is the name of the first item
    * with the strictly smallest value below DOUBLE_MAX (BestIndex), or `name` when there is
    * none. */
  method SelectInTree(items: seq<LocalityItem>, p: Point, name: string, geo: Geodesy) returns (r: string)
    ensures r == SelectedName(items, p, name, geo)
    ensures BestIndex(items, p, geo).None? ==> r == name
  {
    var selector := new LocalitySelector(name, p, geo);
    ghost var best: Option<nat> := None;
    for i := 0 to |items|
      invariant selector.point == p && selector.geo == geo
      invariant best == BestIndex(items[..i], p, geo)
      invariant best.Some? ==> best.value < i
      invariant selector.best == if best.Some? then Score(items[best.value], p, geo) else DOUBLE_MAX
      invariant selector.name == if best.Some? then items[best.value].name else name
    {
      if InRange(items[i], p) {
        selector.Visit(items[i]);
      }
      assert items[..i + 1][..i] == items[..i];
      assert best.Some? ==> items[..i][best.value] == items[best.value];
      best := BestIndex(items[..i + 1], p, geo);
    }
    assert items[..|items|] == items;
    r := selector.name;
  }

  /** DoLoader::operator(): the chain of skips of the source (not a point, not a city or town,
    * already loaded, no population, covering rect off the loader's rect, no name in the
    * preferred or the default language), then insertion of the item and of its id. */
  method DoLoader(cache: Cache, f: Feature, rect: Rect, lang: Lang, geo: Geodesy)
    requires cache.Valid()
    modifies cache
    ensures cache.Valid()
    ensures cache.State() == LoadOne(old(cache.State()), f, rect, lang, geo)
  {
    ghost var before := cache.State();
    LoadOneConsistent(before, f, rect, lang, geo);
    if !f.isPoint {
      return;
    }
    if !(f.kind == City || f.kind == Town) {
      return;
    }
    if f.id in cache.loaded {
      return;
    }
    var population := f.population;
    if population == 0 {
      return;
    }
    var radius := geo.radiusByPopulation(population);
    var itemRect := geo.rectAround(f.center, radius);
    if !IsIntersect(itemRect, rect) {
      return;
    }
    var name: string;
    if lang in f.names {
      name := f.names[lang];
    } else if 0 in f.names {
      name := f.names[0];
    } else {
      return;
    }
    var item := LocalityItem(itemRect, name, population, f.id);
    cache.tree := cache.tree + [item];
    cache.loaded := cache.loaded + {f.id};
  }
}

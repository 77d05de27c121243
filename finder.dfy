/** LocalityFinder (search/locality_finder.cpp): a fixed bank of viewport caches addressed by
  * the caller's slot index and a fixed bank of temporary caches recycled by usage. The banks
  * are arrays of Cache objects; the ghost sequences `viewportStates` and `temporaryStates`
  * hold their states in index order, and every method is proved against the value-level
  * functions of FinderModel over those sequences. */
module Finder {
  import opened Geometry
  import opened LocalityModel
  import opened FinderModel
  import opened LocalityCache

  /** A bank of `n` new caches, each in the default-constructed state; `slot` extends `slot0`
    * with the slot (bank, i) of every new cache. */
  method NewCaches(n: nat, bank: bool, ghost slot0: map<Cache, (bool, nat)>)
    returns (a: array<Cache>, ghost slot: map<Cache, (bool, nat)>)
    ensures fresh(a) && a.Length == n
    ensures forall i :: 0 <= i < n ==> fresh(a[i]) && a[i].Valid() && a[i].State() == NewCacheState
    ensures forall c :: c in slot0 ==> c in slot && slot[c] == slot0[c]
    ensures forall i :: 0 <= i < n ==> a[i] in slot && slot[a[i]] == (bank, i)
  {
    var s: seq<Cache> := [];
    slot := slot0;
    while |s| < n
      invariant |s| <= n
      invariant forall i :: 0 <= i < |s| ==> fresh(s[i]) && s[i].Valid() && s[i].State() == NewCacheState
      invariant forall c :: c in slot0 ==> c in slot && slot[c] == slot0[c]
      invariant forall i :: 0 <= i < |s| ==> s[i] in slot && slot[s[i]] == (bank, i)
    {
      var c := new Cache();
      slot := slot[c := (bank, |s|)];
      s := s + [c];
    }
    a := new Cache[n](i requires 0 <= i < n => s[i]);
  }

  class LocalityFinder {
    /** The registered map files, as the index m_pIndex reports them. */
    const mwms: seq<Mwm>
    const geo: Geodesy
    /** m_lang: the preferred language for locality names. */
    var lang: Lang
    /** m_cache: the viewport caches (MAX_VIEWPORT_COUNT of them). */
    const viewports: array<Cache>
    /** m_cache_tmp: the temporary caches (MAX_CACHE_TMP_COUNT of them). */
    const temporary: array<Cache>
    /** The states of the viewport caches and of the temporary caches, in index order. */
    ghost var viewportStates: seq<CacheState>
    ghost var temporaryStates: seq<CacheState>
    /** The bank (true for the viewport bank) and index of every cache: one slot per cache
      * object, so no cache is shared between two slots. */
    ghost const slot: map<Cache, (bool, nat)>

    ghost function Caches(): set<Cache>
      reads this, viewports, temporary
    {
      (set i | 0 <= i < viewports.Length :: viewports[i]) + (set i | 0 <= i < temporary.Length :: temporary[i])
    }

    ghost function ViewportCaches(): set<Cache>
      reads this, viewports
    {
      set i | 0 <= i < viewports.Length :: viewports[i]
    }

    ghost function TemporaryCaches(): set<Cache>
      reads this, temporary
    {
      set i | 0 <= i < temporary.Length :: temporary[i]
    }

    /** At least one temporary cache; every cache sits in its own slot, keeps its invariant and
      * holds the state recorded for it. */
    ghost predicate Valid()
      reads this, viewports, temporary, Caches()
    {
      temporary.Length > 0 &&
      |viewportStates| == viewports.Length && |temporaryStates| == temporary.Length &&
      (forall i :: 0 <= i < viewports.Length ==>
        viewports[i] in slot && slot[viewports[i]] == (true, i) &&
        viewports[i].Valid() && viewports[i].State() == viewportStates[i]) &&
      (forall i :: 0 <= i < temporary.Length ==>
        temporary[i] in slot && slot[temporary[i]] == (false, i) &&
        temporary[i].Valid() && temporary[i].State() == temporaryStates[i])
    }

    /** LocalityFinder(pIndex): default language, all caches default-constructed. */
    constructor (mwms: seq<Mwm>, geo: Geodesy, viewportCount: nat, temporaryCount: nat)
      requires temporaryCount > 0
      ensures Valid()
      ensures this.mwms == mwms && this.geo == geo && lang == 0
      ensures viewports.Length == viewportCount && temporary.Length == temporaryCount
      ensures forall i :: 0 <= i < viewportCount ==> viewportStates[i] == NewCacheState
      ensures forall i :: 0 <= i < temporaryCount ==> temporaryStates[i] == NewCacheState
    {
      var vs, ts;
      ghost var vslot, tslot;
      vs, vslot := NewCaches(viewportCount, true, map[]);
      ts, tslot := NewCaches(temporaryCount, false, vslot);
      this.mwms := mwms;
      this.geo := geo;
      lang := 0;
      viewports := vs;
      temporary := ts;
      slot := tslot;
      viewportStates := seq(viewportCount, i => NewCacheState);
      temporaryStates := seq(temporaryCount, i => NewCacheState);
    }

    /** LocalityFinder::RecreateCache(cache, rect): clear the cache, expand the rect, and for
      * each world map set the cache rect to the expanded rect and run DoLoader over the map's
      * candidates, filtering against the expanded rect. */
    method RecreateCache(cache: Cache, rect: Rect)
      modifies cache
      ensures cache.Valid()
      ensures cache.State() == Recreate(old(cache.State()), rect, mwms, lang, geo)
    {
      cache.Clear();
      var expanded := CorrectMinimalRect(rect, geo);
      ghost var start := cache.State();
      for m := 0 to |mwms|
        invariant cache.Valid()
        invariant cache.State() == ScanMwms(start, mwms[..m], expanded, lang, geo)
      {
        assert mwms[..m + 1][..m] == mwms[..m];
        if mwms[m].isWorld {
          cache.rect := expanded;
          var candidates := mwms[m].candidates(expanded);
          ghost var base := cache.State();
          for i := 0 to |candidates|
            invariant cache.Valid()
            invariant cache.State() == LoadAll(base, candidates[..i], expanded, lang, geo)
          {
            assert candidates[..i + 1][..i] == candidates[..i];
            DoLoader(cache, candidates[i], expanded, lang, geo);
          }
          assert candidates[..|candidates|] == candidates;
        }
      }
      assert mwms[..|mwms|] == mwms;
    }

    /** LocalityFinder::SetViewportByIndex(rect, idx): rebuild viewport cache `idx` for `rect`;
      * every other cache stays as it was. */
    method SetViewportByIndex(rect: Rect, idx: nat)
      requires Valid() && idx < viewports.Length
      modifies this, viewports[idx]
      ensures lang == old(lang)
      ensures Valid()
      ensures viewportStates == old(viewportStates)[idx := Recreate(old(viewportStates)[idx], rect, mwms, lang, geo)]
      ensures temporaryStates == old(temporaryStates)
    {
      RecreateCache(viewports[idx], rect);
      viewportStates := viewportStates[idx := viewports[idx].State()];
    }

    /** Cache::GetLocality on viewport cache `idx`; every other cache is left alone. */
    method ProbeViewport(idx: nat, p: Point, name: string) returns (name': string)
      requires Valid() && idx < viewports.Length
      modifies this, viewports[idx]
      ensures lang == old(lang)
      ensures Valid()
      ensures viewportStates == old(viewportStates)[idx := Probe(old(viewportStates)[idx], p, name, geo).0]
      ensures name' == Probe(old(viewportStates)[idx], p, name, geo).1
      ensures temporaryStates == old(temporaryStates)
    {
      name' := viewports[idx].GetLocality(p, name, geo);
      viewportStates := viewportStates[idx := viewports[idx].State()];
    }

    /** LocalityFinder::GetLocalityInViewport(pt, name): every viewport cache is probed in index
      * order with no early exit (ViewportScanSpec: the last hit wins). */
    method GetLocalityInViewport(p: Point, name: string) returns (name': string)
      requires Valid()
      modifies this, ViewportCaches()
      ensures lang == old(lang)
      ensures Valid()
      ensures (viewportStates, name') == ViewportScan(old(viewportStates), p, name, geo)
      ensures temporaryStates == old(temporaryStates)
    {
      ghost var cs := viewportStates;
      name' := name;
      for i := 0 to viewports.Length
        invariant Valid()
        invariant lang == old(lang)
        invariant |viewportStates| == |cs|
        invariant forall j :: 0 <= j < i ==> viewportStates[j] == Touched(cs[j], p)
        invariant forall j :: i <= j < |cs| ==> viewportStates[j] == cs[j]
        invariant name' == ViewportScan(cs[..i], p, name, geo).1
        invariant temporaryStates == old(temporaryStates)
      {
        ViewportScanStep(cs, i, p, name, geo);
        name' := ProbeViewport(i, p, name');
      }
      ViewportScanSpec(cs, p, name, geo);
      assert cs[..viewports.Length] == cs;
      assert viewportStates == ViewportScan(cs, p, name, geo).0;
    }

    /** Cache::GetLocality on temporary cache `idx`; every other cache is left alone. */
    method ProbeTemporaryAt(idx: nat, p: Point, name: string) returns (name': string)
      requires Valid() && idx < temporary.Length
      modifies this, temporary[idx]
      ensures lang == old(lang)
      ensures Valid()
      ensures temporaryStates == old(temporaryStates)[idx := Probe(old(temporaryStates)[idx], p, name, geo).0]
      ensures name' == Probe(old(temporaryStates)[idx], p, name, geo).1
      ensures viewportStates == old(viewportStates)
    {
      name' := temporary[idx].GetLocality(p, name, geo);
      temporaryStates := temporaryStates[idx := temporary[idx].State()];
    }

    /** What the probing loop of GetLocalityCreateCache knows after `idx` misses, over the
      * states `cs` it started from: the probed prefix, the name the misses left and the running
      * (minUsage, minUsageIdx). */
    ghost predicate ProbedUpTo(cs: seq<CacheState>, p: Point, name: string, idx: nat, name': string, minUsage: nat, minUsageIdx: nat)
      reads this
    {
      ProbedPrefix(cs, temporaryStates, p, name, geo, idx) && name' == NameAt(name, idx) &&
      (minUsage, minUsageIdx) == MinUsageScan(temporaryStates[..idx])
    }

    /** One turn of the probing loop: probe cache `idx`; on a miss, fold its usage into the
      * running minimum. */
    method ProbeStep(ghost cs: seq<CacheState>, p: Point, ghost name: string, idx: nat, nameIn: string, minUsage: nat, minUsageIdx: nat)
      returns (name': string, minUsage': nat, minUsageIdx': nat)
      requires Valid() && idx < temporary.Length && ProbedUpTo(cs, p, name, idx, nameIn, minUsage, minUsageIdx)
      modifies this, temporary[idx]
      ensures lang == old(lang) && Valid() && viewportStates == old(viewportStates)
      ensures name' != "" ==>
        name' == Probe(cs[idx], p, NameAt(name, idx), geo).1 && |temporaryStates| == |cs| &&
        forall j :: 0 <= j < |cs| ==> temporaryStates[j] == if j <= idx then Touched(cs[j], p) else cs[j]
      ensures name' == "" ==> ProbedUpTo(cs, p, name, idx + 1, name', minUsage', minUsageIdx')
    {
      ProbedPrefixStep(cs, temporaryStates, p, name, geo, idx);
      name' := ProbeTemporaryAt(idx, p, nameIn);
      minUsage', minUsageIdx' := minUsage, minUsageIdx;
      if name' != "" {
        return;
      }
      if temporary[idx].usage < minUsage {
        minUsage' := temporary[idx].usage;
        minUsageIdx' := idx;
      }
    }

    /** The probing loop of GetLocalityCreateCache: the temporary caches in index order, each
      * with the name the previous one left, stopping at the first that leaves a non-empty name
      * (`idx` is where it stopped, the bank's length when it never did), while tracking the
      * first cache of strictly minimum usage after its probe, starting from SIZE_MAX. */
    method ProbeTemporary(p: Point, name: string) returns (name': string, idx: nat, minUsageIdx: nat)
      requires Valid()
      modifies this, TemporaryCaches()
      ensures lang == old(lang)
      ensures Valid()
      ensures MissedUpTo(old(temporaryStates), p, name, geo, idx)
      ensures idx < temporary.Length ==> name' == Probe(old(temporaryStates)[idx], p, NameAt(name, idx), geo).1 != ""
      ensures idx == temporary.Length ==> name' == NameAt(name, idx)
      ensures |temporaryStates| == |old(temporaryStates)|
      ensures forall j :: 0 <= j < |temporaryStates| ==>
        temporaryStates[j] == if j <= idx then Touched(old(temporaryStates)[j], p) else old(temporaryStates)[j]
      ensures idx == temporary.Length ==> minUsageIdx == MinUsageScan(temporaryStates).1
      ensures viewportStates == old(viewportStates)
    {
      ghost var cs := temporaryStates;
      minUsageIdx := 0;
      var minUsage := SIZE_MAX;
      name' := name;
      idx := 0;
      while idx < temporary.Length
        invariant Valid() && lang == old(lang) && viewportStates == old(viewportStates)
        invariant ProbedUpTo(cs, p, name, idx, name', minUsage, minUsageIdx)
      {
        name', minUsage, minUsageIdx := ProbeStep(cs, p, name, idx, name', minUsage, minUsageIdx);
        if name' != "" {
          return;
        }
        idx := idx + 1;
      }
      assert temporaryStates[..idx] == temporaryStates;
    }

    /** The miss path of GetLocalityCreateCache on temporary cache `idx`: RecreateCache around
      * the point with radius MAX_RADIUS_CITY, then Cache::GetLocality; every other cache is left
      * alone. */
    method RecreateTemporaryAt(idx: nat, p: Point, name: string) returns (name': string)
      requires Valid() && idx < temporary.Length
      modifies this, temporary[idx]
      ensures lang == old(lang)
      ensures Valid()
      ensures var last := Probe(Recreate(old(temporaryStates)[idx], geo.rectAround(p, MAX_RADIUS_CITY), mwms, lang, geo), p, name, geo);
        temporaryStates == old(temporaryStates)[idx := last.0] && name' == last.1
      ensures viewportStates == old(viewportStates)
    {
      var cache := temporary[idx];
      RecreateCache(cache, geo.rectAround(p, MAX_RADIUS_CITY));
      name' := cache.GetLocality(p, name, geo);
      temporaryStates := temporaryStates[idx := cache.State()];
    }

    /** LocalityFinder::GetLocalityCreateCache(pt, name): probe the temporary caches in order,
      * returning as soon as the name is non-empty; if none answered, rebuild the first cache of
      * minimum usage around the point and probe it. */
    method GetLocalityCreateCache(p: Point, name: string) returns (name': string)
      requires Valid()
      modifies this, TemporaryCaches()
      ensures lang == old(lang)
      ensures Valid()
      ensures (temporaryStates, name') == CreateCache(old(temporaryStates), p, name, mwms, lang, geo)
      ensures viewportStates == old(viewportStates)
    {
      ghost var cs := temporaryStates;
      var idx, minUsageIdx;
      name', idx, minUsageIdx := ProbeTemporary(p, name);
      CreateCacheByProbes(cs, p, name, mwms, lang, geo, idx, temporaryStates);
      if idx < temporary.Length {
        return;
      }
      name' := RecreateTemporaryAt(minUsageIdx, p, name');
    }

    /** LocalityFinder::ClearCache(idx): clear viewport cache `idx`, nothing else. */
    method ClearCache(idx: nat)
      requires Valid() && idx < viewports.Length
      modifies this, viewports[idx]
      ensures lang == old(lang)
      ensures Valid()
      ensures viewportStates == old(viewportStates)[idx := Cleared(old(viewportStates)[idx])]
      ensures temporaryStates == old(temporaryStates)
    {
      viewports[idx].Clear();
      viewportStates := viewportStates[idx := viewports[idx].State()];
    }

    /** Cache::Clear on temporary cache `idx`; every other cache is left alone. */
    method ClearTemporaryAt(idx: nat)
      requires Valid() && idx < temporary.Length
      modifies this, temporary[idx]
      ensures lang == old(lang)
      ensures Valid()
      ensures temporaryStates == old(temporaryStates)[idx := Cleared(old(temporaryStates)[idx])]
      ensures viewportStates == old(viewportStates)
    {
      temporary[idx].Clear();
      temporaryStates := temporaryStates[idx := temporary[idx].State()];
    }

    /** LocalityFinder::ClearCacheAll(): clear every viewport cache and every temporary cache. */
    method ClearCacheAll()
      requires Valid()
      modifies this, Caches()
      ensures lang == old(lang)
      ensures Valid()
      ensures |viewportStates| == |old(viewportStates)| && |temporaryStates| == |old(temporaryStates)|
      ensures forall i :: 0 <= i < |viewportStates| ==> viewportStates[i] == Cleared(old(viewportStates)[i])
      ensures forall i :: 0 <= i < |temporaryStates| ==> temporaryStates[i] == Cleared(old(temporaryStates)[i])
    {
      for i := 0 to viewports.Length
        invariant Valid()
        invariant lang == old(lang)
        invariant |viewportStates| == |old(viewportStates)|
        invariant forall j :: 0 <= j < i ==> viewportStates[j] == Cleared(old(viewportStates)[j])
        invariant forall j :: i <= j < |viewportStates| ==> viewportStates[j] == old(viewportStates)[j]
        invariant temporaryStates == old(temporaryStates)
      {
        ClearCache(i);
      }
      for i := 0 to temporary.Length
        invariant Valid()
        invariant lang == old(lang)
        invariant |viewportStates| == |old(viewportStates)|
        invariant forall j :: 0 <= j < |viewportStates| ==> viewportStates[j] == Cleared(old(viewportStates)[j])
        invariant |temporaryStates| == |old(temporaryStates)|
        invariant forall j :: 0 <= j < i ==> temporaryStates[j] == Cleared(old(temporaryStates)[j])
        invariant forall j :: i <= j < |temporaryStates| ==> temporaryStates[j] == old(temporaryStates)[j]
      {
        ClearTemporaryAt(i);
      }
    }
  }
}

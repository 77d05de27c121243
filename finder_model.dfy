/** Value-level model of the two cache banks of LocalityFinder (search/locality_finder.cpp):
  * the viewport probe of GetLocalityInViewport and the probe / evict / rebuild policy of
  * GetLocalityCreateCache, over the sequence of cache states of a bank. */
module FinderModel {
  import opened Geometry
  import opened LocalityModel

  // ---------------------------------------------------------------------------------------
  // GetLocalityInViewport

  /** Every viewport cache probed in index order, each with the name the previous one left. */
  function ViewportScan(cs: seq<CacheState>, p: Point, name: string, geo: Geodesy): (r: (seq<CacheState>, string))
    ensures |r.0| == |cs|
    decreases |cs|
  {
    if |cs| == 0 then ([], name)
    else
      var pre := ViewportScan(cs[..|cs| - 1], p, name, geo);
      var last := Probe(cs[|cs| - 1], p, pre.1, geo);
      (pre.0 + [last.0], last.1)
  }

  /** GetLocalityInViewport has no early exit: every viewport cache whose rect holds the point
    * has its usage bumped, and the name is that of the HIGHEST-indexed cache that selects an
    * item (a later hit overwrites an earlier one); with no hit the name is unchanged. */
  lemma {:induction false} ViewportScanSpec(cs: seq<CacheState>, p: Point, name: string, geo: Geodesy)
    ensures |ViewportScan(cs, p, name, geo).0| == |cs|
    ensures forall i :: 0 <= i < |cs| ==> ViewportScan(cs, p, name, geo).0[i] == Touched(cs[i], p)
    ensures (forall i :: 0 <= i < |cs| ==> !Hits(cs[i], p, geo)) ==> ViewportScan(cs, p, name, geo).1 == name
    ensures forall i :: 0 <= i < |cs| && Hits(cs[i], p, geo) && (forall j :: i < j < |cs| ==> !Hits(cs[j], p, geo)) ==>
      ViewportScan(cs, p, name, geo).1 == HitName(cs[i], p, geo)
  {
    if |cs| > 0 {
      var n := |cs| - 1;
      var pre := cs[..n];
      ViewportScanSpec(pre, p, name, geo);
      var r := ViewportScan(cs, p, name, geo);
      var r' := ViewportScan(pre, p, name, geo);
      assert forall i :: 0 <= i < n ==> pre[i] == cs[i];
      assert r.1 == if Hits(cs[n], p, geo) then HitName(cs[n], p, geo) else r'.1;
      forall i | 0 <= i < |cs| ensures r.0[i] == Touched(cs[i], p) {
        if i < n { assert r.0[i] == r'.0[i]; }
      }
    }
  }

  /** One more viewport cache: its probe receives the name the earlier ones left. */
  lemma ViewportScanStep(cs: seq<CacheState>, i: nat, p: Point, name: string, geo: Geodesy)
    requires i < |cs|
    ensures ViewportScan(cs[..i + 1], p, name, geo).1 == Probe(cs[i], p, ViewportScan(cs[..i], p, name, geo).1, geo).1
  {
    assert cs[..i + 1][..i] == cs[..i];
  }

  // ---------------------------------------------------------------------------------------
  // GetLocalityCreateCache

  /** The probing loop of GetLocalityCreateCache: the caches after it, the name, and the index
    * at which it returned because the name was non-empty (|cs| when it never did). */
  function ProbeUntilHit(cs: seq<CacheState>, p: Point, name: string, geo: Geodesy): (r: (seq<CacheState>, string, nat))
    ensures |r.0| == |cs| && r.2 <= |cs|
    ensures forall j :: 0 <= j < |cs| ==> r.0[j] == if j <= r.2 then Touched(cs[j], p) else cs[j]
    ensures r.2 < |cs| ==> r.1 != ""
    ensures r.2 == |cs| ==> r.1 == if |cs| == 0 then name else ""
    decreases |cs|
  {
    if |cs| == 0 then ([], name, 0)
    else
      var first := Probe(cs[0], p, name, geo);
      if first.1 != "" then ([first.0] + cs[1..], first.1, 0)
      else
        var rest := ProbeUntilHit(cs[1..], p, first.1, geo);
        ([first.0] + rest.0, rest.1, rest.2 + 1)
  }

  /** The running (minUsage, minUsageIdx) of GetLocalityCreateCache after the caches `cs`:
    * starting from (SIZE_MAX, 0), a cache replaces the candidate only with a strictly smaller
    * usage. */
  function MinUsageScan(cs: seq<CacheState>): (r: (nat, nat))
    ensures r.0 <= SIZE_MAX
    ensures r.1 == 0 || r.1 < |cs|
    ensures forall j :: 0 <= j < |cs| ==> cs[j].usage >= r.0
    ensures r.0 < SIZE_MAX ==> r.1 < |cs| && cs[r.1].usage == r.0 && forall j :: 0 <= j < r.1 ==> cs[j].usage > r.0
    ensures r.0 == SIZE_MAX ==> r.1 == 0
    decreases |cs|
  {
    if |cs| == 0 then (SIZE_MAX, 0)
    else
      var n := |cs| - 1;
      var pre := MinUsageScan(cs[..n]);
      assert forall j :: 0 <= j < n ==> cs[..n][j] == cs[j];
      if cs[n].usage < pre.0 then (cs[n].usage, n) else pre
  }

  /** Two banks of equal size whose caches, except possibly cache `m`, differ at most in usage. */
  ghost predicate SameContentsExcept(a: seq<CacheState>, b: seq<CacheState>, m: nat) {
    |a| == |b| && forall j :: 0 <= j < |a| && j != m ==> SameContents(a[j], b[j])
  }

  /** GetLocalityCreateCache(pt, name): the temporary caches and the name afterwards. At most
    * one cache changes its rect, items or loaded set; the others only have their usage bumped. */
  function CreateCache(cs: seq<CacheState>, p: Point, name: string, mwms: seq<Mwm>, lang: Lang, geo: Geodesy)
    : (r: (seq<CacheState>, string))
    requires |cs| > 0
    ensures |r.0| == |cs|
    ensures exists m :: 0 <= m < |cs| && SameContentsExcept(r.0, cs, m)
  {
    var probed := ProbeUntilHit(cs, p, name, geo);
    assert forall j :: 0 <= j < |cs| ==> SameContents(probed.0[j], cs[j]);
    if probed.2 < |cs| then
      assert SameContentsExcept(probed.0, cs, 0);
      (probed.0, probed.1)
    else
      var m := MinUsageScan(probed.0).1;
      var rebuilt := Recreate(probed.0[m], geo.rectAround(p, MAX_RADIUS_CITY), mwms, lang, geo);
      var last := Probe(rebuilt, p, probed.1, geo);
      assert SameContentsExcept(probed.0[m := last.0], cs, m);
      (probed.0[m := last.0], last.1)
  }

  /** The cache answers a query that starts with an empty name. */
  predicate Answers(c: CacheState, p: Point, geo: Geodesy) {
    Probe(c, p, "", geo).1 != ""
  }

  /** The name each probe of GetLocalityCreateCache receives: the caller's for the first cache,
    * the empty name (left by a miss) for every later one. */
  function NameAt(name: string, j: nat): string {
    if j == 0 then name else ""
  }

  /** No probe of the first `k` temporary caches left a non-empty name. */
  ghost predicate MissedUpTo(cs: seq<CacheState>, p: Point, name: string, geo: Geodesy, k: nat) {
    k <= |cs| && forall j :: 0 <= j < k ==> Probe(cs[j], p, NameAt(name, j), geo).1 == ""
  }

  /** The probing loop returns at exactly the first cache whose probe leaves a non-empty name,
    * with that name; when there is none it runs through every cache. */
  lemma {:induction false} ProbeUntilHitFirstAnswer(cs: seq<CacheState>, p: Point, name: string, geo: Geodesy, k: nat)
    requires MissedUpTo(cs, p, name, geo, k)
    requires k < |cs| ==> Probe(cs[k], p, NameAt(name, k), geo).1 != ""
    ensures ProbeUntilHit(cs, p, name, geo).2 == k
    ensures k < |cs| ==> ProbeUntilHit(cs, p, name, geo).1 == Probe(cs[k], p, NameAt(name, k), geo).1
  {
    if k > 0 {
      assert Probe(cs[0], p, name, geo).1 == "";
      forall j | 0 <= j < k - 1 ensures Probe(cs[1..][j], p, NameAt("", j), geo).1 == "" {
        assert cs[1..][j] == cs[j + 1];
        assert Probe(cs[j + 1], p, NameAt(name, j + 1), geo).1 == "";
      }
      if k < |cs| {
        assert cs[1..][k - 1] == cs[k];
      }
      ProbeUntilHitFirstAnswer(cs[1..], p, "", geo, k - 1);
    }
  }

  /** The bank `states` after the probing loop of GetLocalityCreateCache has missed on the
    * first `k` caches of `cs`: those are touched, the rest untouched. */
  ghost predicate ProbedPrefix(cs: seq<CacheState>, states: seq<CacheState>, p: Point, name: string, geo: Geodesy, k: nat) {
    MissedUpTo(cs, p, name, geo, k) && |states| == |cs| &&
    (forall j :: 0 <= j < k ==> states[j] == Touched(cs[j], p)) &&
    (forall j :: k <= j < |cs| ==> states[j] == cs[j])
  }

  /** One more probe of the loop, on cache `k`. A hit leaves caches 0..k touched and the rest
    * untouched; a miss extends the prefix, and the running minimum over the probed caches
    * moves to cache `k` only on a strictly smaller usage. */
  lemma ProbedPrefixStep(cs: seq<CacheState>, states: seq<CacheState>, p: Point, name: string, geo: Geodesy, k: nat)
    requires ProbedPrefix(cs, states, p, name, geo, k) && k < |cs|
    ensures var r := Probe(states[k], p, NameAt(name, k), geo);
      r == Probe(cs[k], p, NameAt(name, k), geo) &&
      (r.1 != "" ==> forall j :: 0 <= j < |cs| ==> states[k := r.0][j] == if j <= k then Touched(cs[j], p) else cs[j]) &&
      (r.1 == "" ==> ProbedPrefix(cs, states[k := r.0], p, name, geo, k + 1)) &&
      MinUsageScan(states[k := r.0][..k + 1]) ==
        if r.0.usage < MinUsageScan(states[..k]).0 then (r.0.usage, k) else MinUsageScan(states[..k])
  {
    var r := Probe(states[k], p, NameAt(name, k), geo);
    assert states[k := r.0][..k + 1][..k] == states[..k];
  }

  /** GetLocalityCreateCache from the outcome of its probing loop: `k` caches missed and, when
    * k < |cs|, cache `k` answered; `states` are the caches after the loop. Either the answer
    * is returned with those caches, or the first cache of minimum usage among `states` is
    * rebuilt around the point and probed with the empty name the misses left. */
  lemma CreateCacheByProbes(cs: seq<CacheState>, p: Point, name: string, mwms: seq<Mwm>, lang: Lang, geo: Geodesy,
                            k: nat, states: seq<CacheState>)
    requires |cs| > 0
    requires MissedUpTo(cs, p, name, geo, k)
    requires k < |cs| ==> Probe(cs[k], p, NameAt(name, k), geo).1 != ""
    requires |states| == |cs|
    requires forall j :: 0 <= j < |cs| ==> states[j] == if j <= k then Touched(cs[j], p) else cs[j]
    ensures k < |cs| ==> CreateCache(cs, p, name, mwms, lang, geo) == (states, Probe(cs[k], p, NameAt(name, k), geo).1)
    ensures k == |cs| ==>
      var m := MinUsageScan(states).1;
      var last := Probe(Recreate(states[m], geo.rectAround(p, MAX_RADIUS_CITY), mwms, lang, geo), p, "", geo);
      m < |cs| && CreateCache(cs, p, name, mwms, lang, geo) == (states[m := last.0], last.1)
  {
    ProbeUntilHitFirstAnswer(cs, p, name, geo, k);
    assert ProbeUntilHit(cs, p, name, geo).0 == states;
  }

  /** The probing loop stops at the first cache that answers: with an empty name on entry, a
    * cache that answers bounds the index at which GetLocalityCreateCache returns. */
  lemma {:induction false} ProbeStopsAtAnswer(cs: seq<CacheState>, p: Point, geo: Geodesy, j: nat)
    requires j < |cs| && Answers(cs[j], p, geo)
    ensures ProbeUntilHit(cs, p, "", geo).2 <= j
  {
    if !Answers(cs[0], p, geo) {
      assert cs[1..][j - 1] == cs[j];
      ProbeStopsAtAnswer(cs[1..], p, geo, j - 1);
    }
  }

  /** A hit during probing means no rebuild: every temporary cache keeps its rect, items and
    * loaded set, only usage counters move, and the name is non-empty. */
  lemma CreateCacheHitNoRebuild(cs: seq<CacheState>, p: Point, name: string, mwms: seq<Mwm>, lang: Lang, geo: Geodesy)
    requires |cs| > 0
    requires ProbeUntilHit(cs, p, name, geo).2 < |cs|
    ensures var r := CreateCache(cs, p, name, mwms, lang, geo);
      |r.0| == |cs| && r.1 != "" &&
      forall j :: 0 <= j < |cs| ==> SameContents(r.0[j], cs[j]) && r.0[j].usage in {cs[j].usage, IncUsage(cs[j].usage)}
  {
  }

  /** When every temporary cache misses, exactly one cache is rebuilt: the lowest index among
    * those with the minimum usage after their probes (index 0 if all usages are SIZE_MAX).
    * It is rebuilt around the point and queried again; the others only had their probes. */
  lemma CreateCacheEvicts(cs: seq<CacheState>, p: Point, name: string, mwms: seq<Mwm>, lang: Lang, geo: Geodesy)
    returns (m: nat)
    requires |cs| > 0
    requires ProbeUntilHit(cs, p, name, geo).2 == |cs|
    ensures m < |cs|
    ensures var r := CreateCache(cs, p, name, mwms, lang, geo);
      |r.0| == |cs| &&
      (forall j :: 0 <= j < |cs| && j != m ==> r.0[j] == Touched(cs[j], p)) &&
      (var rebuilt := Recreate(Touched(cs[m], p), geo.rectAround(p, MAX_RADIUS_CITY), mwms, lang, geo);
       r.0[m] == Probe(rebuilt, p, "", geo).0 && r.1 == Probe(rebuilt, p, "", geo).1)
    ensures (exists j :: 0 <= j < |cs| && Touched(cs[j], p).usage < SIZE_MAX) ==>
      (forall j :: 0 <= j < |cs| ==> Touched(cs[j], p).usage >= Touched(cs[m], p).usage) &&
      (forall j :: 0 <= j < m ==> Touched(cs[j], p).usage > Touched(cs[m], p).usage)
    ensures (forall j :: 0 <= j < |cs| ==> Touched(cs[j], p).usage >= SIZE_MAX) ==> m == 0
  {
    var probed := ProbeUntilHit(cs, p, name, geo);
    m := MinUsageScan(probed.0).1;
    assert forall j :: 0 <= j < |cs| ==> probed.0[j] == Touched(cs[j], p);
    assert probed.1 == "";
  }

  /** A second query answered by any temporary cache (for instance a point near the first one,
    * inside the cache just rebuilt for it) rebuilds nothing. */
  lemma NoRebuildWhenAnswered(cs: seq<CacheState>, p: Point, mwms: seq<Mwm>, lang: Lang, geo: Geodesy, k: nat)
    requires k < |cs| && Answers(cs[k], p, geo)
    ensures var r := CreateCache(cs, p, "", mwms, lang, geo);
      |r.0| == |cs| && r.1 != "" && forall j :: 0 <= j < |cs| ==> SameContents(r.0[j], cs[j])
  {
    ProbeStopsAtAnswer(cs, p, geo, k);
    CreateCacheHitNoRebuild(cs, p, "", mwms, lang, geo);
  }
}

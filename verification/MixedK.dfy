/**
Mixed-K expert tiering (scripts/patch_exl3_mixk.py, the appended _mixk_* functions): experts are grouped by
trellis width into tiers, each tier has a route map, and tier outputs are accumulated in place. Arithmetic
is over the reals; one expert's output for one token and coordinate is a given number.
*/
module MixedK {
  import opened Options

  /** The three trellis widths of an expert: gate, up and down. */
  datatype Widths = Widths(gate: int, up: int, down: int)

  /** The three widths agree and are sixteen times an allowed class. */
  predicate Declared(w: Widths, allowed: set<int>) {
    exists k :: k in allowed && w == Widths(16 * k, 16 * k, 16 * k)
  }

  /** k_of, or the error for the first expert whose widths disagree or are not declared. */
  method WidthClasses(widths: seq<Widths>, allowed: set<int>) returns (kOf: Option<seq<int>>)
    ensures kOf.Some? <==> forall e :: 0 <= e < |widths| ==> Declared(widths[e], allowed)
    ensures kOf.Some? ==> |kOf.value| == |widths|
                          && forall e :: 0 <= e < |widths| ==> 16 * kOf.value[e] == widths[e].gate && kOf.value[e] in allowed
  {
    var ks: seq<int> := [];
    for e := 0 to |widths|
      invariant |ks| == e
      invariant forall i :: 0 <= i < e ==> Declared(widths[i], allowed) && 16 * ks[i] == widths[i].gate && ks[i] in allowed
    {
      var w := widths[e];
      if w.gate != w.up || w.gate != w.down {
        return None;
      }
      if w.gate % 16 != 0 || w.gate / 16 !in allowed {
        return None;
      }
      assert w == Widths(16 * (w.gate / 16), 16 * (w.gate / 16), 16 * (w.gate / 16));
      ks := ks + [w.gate / 16];
    }
    kOf := Some(ks);
  }

  // ------------------------------------------------------------------ tiers and route maps

  /** The experts of width class k, ascending. */
  function Members(kOf: seq<int>, k: int): seq<nat> {
    if kOf == [] then []
    else Members(kOf[..|kOf| - 1], k) + if kOf[|kOf| - 1] == k then [|kOf| - 1] else []
  }

  lemma {:induction false} MembersAre(kOf: seq<int>, k: int)
    ensures forall e: nat :: e in Members(kOf, k) <==> e < |kOf| && kOf[e] == k
    ensures forall i, j :: 0 <= i < j < |Members(kOf, k)| ==> Members(kOf, k)[i] < Members(kOf, k)[j]
  {
    if kOf != [] {
      MembersAre(kOf[..|kOf| - 1], k);
      MembersAscend(Members(kOf[..|kOf| - 1], k), |kOf| - 1, kOf[|kOf| - 1] == k);
    }
  }

  lemma MembersAscend(front: seq<nat>, last: nat, joins: bool)
    requires forall e: nat :: e in front ==> e < last
    requires forall i, j :: 0 <= i < j < |front| ==> front[i] < front[j]
    ensures var all := front + if joins then [last] else [];
            && (forall e: nat :: e in all <==> e in front || (joins && e == last))
            && forall i, j :: 0 <= i < j < |all| ==> all[i] < all[j]
  {
    forall i | 0 <= i < |front| ensures front[i] < last {
      assert front[i] in front;
    }
  }

  /** Appends every expert, in order, to the list of its width class. */
  method GroupByClass(kOf: seq<int>) returns (tiers: map<int, seq<nat>>)
    ensures forall k :: k in tiers <==> k in kOf
    ensures forall k :: k in tiers ==> tiers[k] == Members(kOf, k)
  {
    tiers := map[];
    for e := 0 to |kOf|
      invariant forall k :: k in tiers <==> k in kOf[..e]
      invariant forall k :: k in tiers ==> tiers[k] == Members(kOf[..e], k)
    {
      var k := kOf[e];
      assert kOf[..e + 1][..e] == kOf[..e];
      assert kOf[..e + 1] == kOf[..e] + [k];
      if k !in tiers {
        NoMembers(kOf[..e], k);
        tiers := tiers[k := []];
      }
      tiers := tiers[k := tiers[k] + [e]];
    }
    assert kOf[..|kOf|] == kOf;
  }

  lemma {:induction false} NoMembers(kOf: seq<int>, k: int)
    requires k !in kOf
    ensures Members(kOf, k) == []
  {
    if kOf != [] {
      NoMembers(kOf[..|kOf| - 1], k);
    }
  }

  method InsertClass(ks: seq<int>, k: int) returns (sorted: seq<int>)
    requires k !in ks && forall i, j :: 0 <= i < j < |ks| ==> ks[i] < ks[j]
    ensures forall x :: x in sorted <==> x in ks || x == k
    ensures forall i, j :: 0 <= i < j < |sorted| ==> sorted[i] < sorted[j]
  {
    var at := 0;
    while at < |ks| && ks[at] < k
      invariant at <= |ks| && forall i :: 0 <= i < at ==> ks[i] < k
    {
      at := at + 1;
    }
    forall i | at <= i < |ks| ensures ks[i] > k {
      assert ks[i] in ks;
    }
    assert ks == ks[..at] + ks[at..];
    sorted := ks[..at] + [k] + ks[at..];
  }

  lemma SomeClass(classes: set<int>)
    requires classes != {}
    ensures exists k :: k in classes
  {
    assert (forall k :: k !in classes) ==> classes == {};
  }

  /** The width classes, ascending. */
  method SortedClasses(classes: set<int>) returns (ks: seq<int>)
    ensures forall k :: k in ks <==> k in classes
    ensures forall i, j :: 0 <= i < j < |ks| ==> ks[i] < ks[j]
  {
    ks := [];
    var rest := classes;
    while rest != {}
      invariant rest <= classes
      invariant forall k :: k in ks <==> k in classes - rest
      invariant forall i, j :: 0 <= i < j < |ks| ==> ks[i] < ks[j]
      decreases |rest|
    {
      SomeClass(rest);
      var k :| k in rest;
      ks := InsertClass(ks, k);
      rest := rest - {k};
    }
  }

  datatype Tier = Tier(k: int, experts: seq<nat>, routeMap: seq<int>)

  /** Each expert's position in the tier, or -1. */
  predicate Routes(routeMap: seq<int>, experts: seq<nat>, numExperts: nat) {
    && |routeMap| == numExperts
    && (forall i :: 0 <= i < |experts| ==> experts[i] < numExperts && routeMap[experts[i]] == i)
    && (forall e: nat :: e < numExperts && e !in experts ==> routeMap[e] == -1)
  }

  /** All -1 at first, then each expert of the tier gets its position. */
  method BuildRouteMap(numExperts: nat, experts: seq<nat>) returns (routeMap: array<int>)
    requires forall i :: 0 <= i < |experts| ==> experts[i] < numExperts
    requires forall i, j :: 0 <= i < j < |experts| ==> experts[i] < experts[j]
    ensures fresh(routeMap) && Routes(routeMap[..], experts, numExperts)
  {
    routeMap := new int[numExperts](_ => -1);
    for i := 0 to |experts|
      invariant forall j :: 0 <= j < i ==> routeMap[experts[j]] == j
      invariant forall e: nat :: e < numExperts && e !in experts[..i] ==> routeMap[e] == -1
    {
      assert experts[..i + 1] == experts[..i] + [experts[i]];
      routeMap[experts[i]] := i;
    }
    assert experts[..|experts|] == experts;
  }

  /** The tiers of a layer, in ascending k. */
  ghost predicate TiersOf(tiers: seq<Tier>, kOf: seq<int>) {
    && (forall i, j :: 0 <= i < j < |tiers| ==> tiers[i].k < tiers[j].k)
    && (forall k :: k in kOf <==> exists i :: 0 <= i < |tiers| && tiers[i].k == k)
    && (forall i :: 0 <= i < |tiers| ==>
          tiers[i].experts == Members(kOf, tiers[i].k) && Routes(tiers[i].routeMap, tiers[i].experts, |kOf|))
  }

  method PrepareTiers(widths: seq<Widths>, allowed: set<int>) returns (tiers: Option<seq<Tier>>, ghost kOf: seq<int>)
    ensures tiers.Some? <==> forall e :: 0 <= e < |widths| ==> Declared(widths[e], allowed)
    ensures tiers.Some? ==> |kOf| == |widths| && TiersOf(tiers.value, kOf)
                            && forall e :: 0 <= e < |widths| ==> 16 * kOf[e] == widths[e].gate
  {
    var classes := WidthClasses(widths, allowed);
    kOf := [];
    if classes.None? {
      return None, kOf;
    }
    kOf := classes.value;
    var groups := GroupByClass(classes.value);
    var ks := SortedClasses(groups.Keys);
    var entries: seq<Tier> := [];
    for n := 0 to |ks|
      invariant |entries| == n && forall i :: 0 <= i < n ==> entries[i].k == ks[i]
      invariant forall i :: 0 <= i < n ==>
                  entries[i].experts == Members(kOf, ks[i]) && Routes(entries[i].routeMap, entries[i].experts, |kOf|)
    {
      var k := ks[n];
      assert k in groups;
      MembersAre(kOf, k);
      MembersInRange(kOf, k);
      var routeMap := BuildRouteMap(|classes.value|, groups[k]);
      entries := entries + [Tier(k, groups[k], routeMap[..])];
    }
    forall k ensures k in kOf <==> exists i :: 0 <= i < |entries| && entries[i].k == k {
      if k in kOf {
        var i :| 0 <= i < |ks| && ks[i] == k;
        assert entries[i].k == k;
      }
      if exists i :: 0 <= i < |entries| && entries[i].k == k {
        var i :| 0 <= i < |entries| && entries[i].k == k;
        assert ks[i] in ks;
      }
    }
    tiers := Some(entries);
  }

  lemma {:induction false} MembersInRange(kOf: seq<int>, k: int)
    ensures forall i :: 0 <= i < |Members(kOf, k)| ==> Members(kOf, k)[i] < |kOf|
  {
    MembersAre(kOf, k);
    forall i | 0 <= i < |Members(kOf, k)| ensures Members(kOf, k)[i] < |kOf| {
      assert Members(kOf, k)[i] in Members(kOf, k);
    }
  }

  /** A route map restricted to its tier is a bijection onto 0..n-1, inverse to the tier's list. */
  lemma RouteMapIsBijection(tiers: seq<Tier>, kOf: seq<int>, i: nat, e: nat)
    requires TiersOf(tiers, kOf) && i < |tiers| && e < |kOf|
    ensures var tier := tiers[i];
            && (tier.routeMap[e] == -1 <==> kOf[e] != tier.k)
            && (kOf[e] == tier.k ==> 0 <= tier.routeMap[e] < |tier.experts| && tier.experts[tier.routeMap[e]] == e)
            && (forall p :: 0 <= p < |tier.experts| ==>
                  tier.experts[p] < |kOf| && kOf[tier.experts[p]] == tier.k && tier.routeMap[tier.experts[p]] == p)
  {
    var tier := tiers[i];
    MembersAre(kOf, tier.k);
    if kOf[e] == tier.k {
      assert e in tier.experts;
      var p :| 0 <= p < |tier.experts| && tier.experts[p] == e;
      assert tier.routeMap[e] == p;
    }
    forall p | 0 <= p < |tier.experts|
      ensures tier.experts[p] < |kOf| && kOf[tier.experts[p]] == tier.k && tier.routeMap[tier.experts[p]] == p
    {
      assert tier.experts[p] in tier.experts;
    }
  }

  // ------------------------------------------------------------------ the mixture of experts

  /** The routing of one token. */
  datatype Route = Route(ids: seq<nat>, weights: seq<real>)

  predicate Routed(r: Route, numExperts: nat) {
    |r.ids| == |r.weights| && forall j :: 0 <= j < |r.ids| ==> r.ids[j] < numExperts
  }

  /** sum over j of weight_j times expert_{id_j}, the untiered layer. */
  function Untiered(r: Route, n: nat, expert: nat -> real): real
    requires n <= |r.ids| && n <= |r.weights|
  {
    if n == 0 then 0.0 else Untiered(r, n - 1, expert) + r.weights[n - 1] * expert(r.ids[n - 1])
  }

  /** What route j adds in one tier: the slab row the map names, or nothing on -1. */
  function Share(tier: Tier, id: nat, weight: real, expert: nat -> real): real {
    if id < |tier.routeMap| && 0 <= tier.routeMap[id] < |tier.experts|
    then weight * expert(tier.experts[tier.routeMap[id]])
    else 0.0
  }

  /** One tier's kernel on one token: the mapped top-k sum. */
  function TierOutput(tier: Tier, r: Route, n: nat, expert: nat -> real): real
    requires n <= |r.ids| && n <= |r.weights|
  {
    if n == 0 then 0.0
    else TierOutput(tier, r, n - 1, expert) + Share(tier, r.ids[n - 1], r.weights[n - 1], expert)
  }

  function Tiered(tiers: seq<Tier>, r: Route, n: nat, expert: nat -> real): real
    requires n <= |r.ids| && n <= |r.weights|
  {
    if tiers == [] then 0.0
    else Tiered(tiers[..|tiers| - 1], r, n, expert) + TierOutput(tiers[|tiers| - 1], r, n, expert)
  }

  function Shares(tiers: seq<Tier>, id: nat, weight: real, expert: nat -> real): real {
    if tiers == [] then 0.0
    else Shares(tiers[..|tiers| - 1], id, weight, expert) + Share(tiers[|tiers| - 1], id, weight, expert)
  }

  /** The sums exchange. */
  lemma {:induction false} TieredByRoute(tiers: seq<Tier>, r: Route, n: nat, expert: nat -> real)
    requires 0 < n <= |r.ids| && n <= |r.weights|
    ensures Tiered(tiers, r, n, expert) ==
            Tiered(tiers, r, n - 1, expert) + Shares(tiers, r.ids[n - 1], r.weights[n - 1], expert)
  {
    if tiers != [] {
      TieredByRoute(tiers[..|tiers| - 1], r, n, expert);
    }
  }

  lemma {:induction false} NoRoutes(tiers: seq<Tier>, r: Route, expert: nat -> real)
    ensures Tiered(tiers, r, 0, expert) == 0.0
  {
    if tiers != [] {
      NoRoutes(tiers[..|tiers| - 1], r, expert);
    }
  }

  lemma ServedAtHome(tiers: seq<Tier>, kOf: seq<int>, i: nat, id: nat, weight: real, expert: nat -> real)
    requires TiersOf(tiers, kOf) && i < |tiers| && id < |kOf|
    ensures Share(tiers[i], id, weight, expert) == if tiers[i].k == kOf[id] then weight * expert(id) else 0.0
  {
    RouteMapIsBijection(tiers, kOf, i, id);
  }

  lemma ClassesDiffer(tiers: seq<Tier>, kOf: seq<int>, i: nat, j: nat)
    requires TiersOf(tiers, kOf) && i < |tiers| && j < |tiers| && i != j
    ensures tiers[i].k != tiers[j].k
  {
  }

  /** Among the first n tiers an expert is served by the one of its class, once that one is included. */
  lemma {:induction false} OneTierServes(tiers: seq<Tier>, kOf: seq<int>, n: nat, home: nat, id: nat, weight: real,
                                         expert: nat -> real)
    requires TiersOf(tiers, kOf) && n <= |tiers| && id < |kOf| && home < |tiers| && tiers[home].k == kOf[id]
    ensures Shares(tiers[..n], id, weight, expert) == if home < n then weight * expert(id) else 0.0
  {
    hide TiersOf, Share;
    if n > 0 {
      OneTierServes(tiers, kOf, n - 1, home, id, weight, expert);
      ServedAtHome(tiers, kOf, n - 1, id, weight, expert);
      if home != n - 1 {
        ClassesDiffer(tiers, kOf, home, n - 1);
      }
      assert tiers[..n][..n - 1] == tiers[..n - 1];
    }
  }

  /** Main result: for any classes, ids and weights the tiered layer is the untiered one. */
  lemma {:induction false} TieredIsUntiered(tiers: seq<Tier>, kOf: seq<int>, r: Route, n: nat, expert: nat -> real)
    requires TiersOf(tiers, kOf) && Routed(r, |kOf|) && n <= |r.ids|
    ensures Tiered(tiers, r, n, expert) == Untiered(r, n, expert)
  {
    hide TiersOf;
    if n == 0 {
      NoRoutes(tiers, r, expert);
    } else {
      TieredIsUntiered(tiers, kOf, r, n - 1, expert);
      TieredByRoute(tiers, r, n, expert);
      var home := HomeTier(tiers, kOf, r.ids[n - 1]);
      OneTierServes(tiers, kOf, |tiers|, home, r.ids[n - 1], r.weights[n - 1], expert);
      assert tiers[..|tiers|] == tiers;
    }
  }

  lemma HomeTier(tiers: seq<Tier>, kOf: seq<int>, id: nat) returns (home: nat)
    requires TiersOf(tiers, kOf) && id < |kOf|
    ensures home < |tiers| && tiers[home].k == kOf[id]
  {
    assert kOf[id] in kOf;
    home :| home < |tiers| && tiers[home].k == kOf[id];
  }

  // ------------------------------------------------------------------ in place

  /** expert(e, t, h): coordinate h of expert e on token t. */
  function At(expert: (nat, nat, nat) -> real, t: nat, h: nat): nat -> real {
    (e: nat) => expert(e, t, h)
  }

  /** One tier's launch: into accum when it is the first, added to accum otherwise. */
  method RunTier(accum: array2<real>, m: nat, tiers: seq<Tier>, n: nat, routes: seq<Route>,
                 expert: (nat, nat, nat) -> real)
    requires m <= accum.Length0 && |routes| == m && n < |tiers|
    requires forall t :: 0 <= t < m ==> |routes[t].ids| == |routes[t].weights|
    requires n > 0 ==> Accumulated(accum, m, tiers[..n], routes, expert)
    modifies accum
    ensures Accumulated(accum, m, tiers[..n + 1], routes, expert)
    ensures forall t, h :: m <= t < accum.Length0 && 0 <= h < accum.Length1 ==> accum[t, h] == old(accum[t, h])
  {
    hide TierOutput, Tiered;
    NoTier();
    for t := 0 to m
      invariant forall u, h :: 0 <= u < t && 0 <= h < accum.Length1 ==>
                  accum[u, h] == Tiered(tiers[..n + 1], routes[u], |routes[u].ids|, At(expert, u, h))
      invariant forall u, h :: t <= u < accum.Length0 && 0 <= h < accum.Length1 ==> accum[u, h] == old(accum[u, h])
    {
      for h := 0 to accum.Length1
        invariant forall g :: 0 <= g < h ==>
                    accum[t, g] == Tiered(tiers[..n + 1], routes[t], |routes[t].ids|, At(expert, t, g))
        invariant forall u, g :: 0 <= u < t && 0 <= g < accum.Length1 ==>
                    accum[u, g] == Tiered(tiers[..n + 1], routes[u], |routes[u].ids|, At(expert, u, g))
        invariant forall g :: h <= g < accum.Length1 ==> accum[t, g] == old(accum[t, g])
        invariant forall u, g :: t < u < accum.Length0 && 0 <= g < accum.Length1 ==> accum[u, g] == old(accum[u, g])
      {
        var out := TierOutput(tiers[n], routes[t], |routes[t].ids|, At(expert, t, h));
        TieredSnoc(tiers, n, routes[t], |routes[t].ids|, At(expert, t, h));
        if n == 0 {
          assert tiers[..0] == [];
          NoTiers(routes[t], |routes[t].ids|, At(expert, t, h));
          accum[t, h] := out;
        } else {
          accum[t, h] := accum[t, h] + out;
        }
      }
    }
  }

  lemma {:induction false} TieredSnoc(tiers: seq<Tier>, n: nat, r: Route, k: nat, expert: nat -> real)
    requires n < |tiers| && k <= |r.ids| && k <= |r.weights|
    ensures Tiered(tiers[..n + 1], r, k, expert) == Tiered(tiers[..n], r, k, expert) + TierOutput(tiers[n], r, k, expert)
  {
    assert tiers[..n + 1][..n] == tiers[..n];
  }

  lemma {:induction false} NoTiers(r: Route, k: nat, expert: nat -> real)
    requires k <= |r.ids| && k <= |r.weights|
    ensures Tiered([], r, k, expert) == 0.0
  {
  }

  lemma NoTier()
    ensures forall tiers: seq<Tier> :: tiers[..0] == []
  {
  }

  ghost predicate Accumulated(accum: array2<real>, m: nat, tiers: seq<Tier>, routes: seq<Route>,
                              expert: (nat, nat, nat) -> real)
    requires m <= accum.Length0 && |routes| == m
    requires forall t :: 0 <= t < m ==> |routes[t].ids| == |routes[t].weights|
    reads accum
  {
    forall t, h :: 0 <= t < m && 0 <= h < accum.Length1 ==>
      accum[t, h] == Tiered(tiers, routes[t], |routes[t].ids|, At(expert, t, h))
  }

  // ------------------------------------------------------------------ plans and arenas

  /** A scratch buffer: its shape and the size of one element. */
  datatype Spec = Spec(shape: seq<nat>, element: nat)

  function Product(shape: seq<nat>): nat {
    if shape == [] then 1 else Product(shape[..|shape| - 1]) * shape[|shape| - 1]
  }

  function ByteSize(spec: Spec): nat {
    Product(spec.shape) * spec.element
  }

  method ShapeBytes(spec: Spec) returns (b: nat)
    ensures b == ByteSize(spec)
  {
    b := 1;
    for i := 0 to |spec.shape|
      invariant b == Product(spec.shape[..i])
    {
      assert spec.shape[..i + 1][..i] == spec.shape[..i];
      b := b * spec.shape[i];
    }
    assert spec.shape[..|spec.shape|] == spec.shape;
    b := b * spec.element;
  }

  /** The shared arena: none without plans, otherwise exactly as large as the largest scratch. */
  method ArenaFor(specs: seq<Spec>) returns (arena: Option<nat>)
    ensures arena.None? <==> specs == []
    ensures arena.Some? ==> forall i :: 0 <= i < |specs| ==> ByteSize(specs[i]) <= arena.value
    ensures arena.Some? ==> arena.value == 0 || exists i :: 0 <= i < |specs| && ByteSize(specs[i]) == arena.value
  {
    if specs == [] {
      return None;
    }
    var nbytes := 0;
    for i := 0 to |specs|
      invariant forall j :: 0 <= j < i ==> ByteSize(specs[j]) <= nbytes
      invariant nbytes == 0 || exists j :: 0 <= j < i && ByteSize(specs[j]) == nbytes
    {
      var b := ShapeBytes(specs[i]);
      if b > nbytes {
        nbytes := b;
      }
    }
    arena := Some(nbytes);
  }

  /** The token windows a runtime was planned for. */
  datatype Window = Window(minTrellis: nat, maxTrellis: nat, maxBatched: nat)

  predicate Decodes(w: Window, m: nat) {
    w.minTrellis <= m <= w.maxTrellis
  }

  predicate PrefillPlanned(w: Window) {
    w.maxBatched > w.maxTrellis
  }

  datatype Runtime = Runtime(window: Window, decode: seq<Spec>, prefill: seq<Spec>, decodeArena: Option<nat>,
                             prefillArena: Option<nat>)

  /** A runtime planned for n tiers: a decode plan each, and a prefill plan each when large batches exist. */
  ghost predicate Planned(rt: Runtime, n: nat) {
    && |rt.decode| == n
    && |rt.prefill| == (if PrefillPlanned(rt.window) then n else 0)
    && (rt.decodeArena.Some? <==> rt.decode != []) && (rt.prefillArena.Some? <==> rt.prefill != [])
    && (rt.decodeArena.Some? ==> forall i :: 0 <= i < |rt.decode| ==> ByteSize(rt.decode[i]) <= rt.decodeArena.value)
    && (rt.prefillArena.Some? ==> forall i :: 0 <= i < |rt.prefill| ==> ByteSize(rt.prefill[i]) <= rt.prefillArena.value)
  }

  method PlanRuntime(window: Window, decode: seq<Spec>, prefill: seq<Spec>) returns (rt: Runtime)
    requires |prefill| == |decode|
    ensures Planned(rt, |decode|) && rt.window == window
  {
    var planned := if PrefillPlanned(window) then prefill else [];
    var decodeArena := ArenaFor(decode);
    var prefillArena := ArenaFor(planned);
    rt := Runtime(window, decode, planned, decodeArena, prefillArena);
  }

  /** The whole layer: refused exactly for a batch over capacity, or below the decode window of a runtime whose
      capacity gave no reason to plan a prefill. Otherwise the plan of every tier was made for at least as many
      tokens, its scratch view lies inside its arena, and accum ends up holding the untiered mixture of experts. */
  method Apply(accum: array2<real>, rt: Runtime, tiers: seq<Tier>, ghost kOf: seq<int>, routes: seq<Route>,
               expert: (nat, nat, nat) -> real) returns (ok: bool)
    requires TiersOf(tiers, kOf) && kOf != [] && Planned(rt, |tiers|)
    requires rt.window.maxBatched <= accum.Length0 && rt.window.maxTrellis <= accum.Length0
    requires forall t :: 0 <= t < |routes| ==> |routes[t].ids| == |routes[t].weights|
    requires forall t :: 0 <= t < |routes| ==> Routed(routes[t], |kOf|)
    modifies accum
    ensures ok <==>
            && |routes| <= rt.window.maxBatched
            && (|routes| >= rt.window.minTrellis || rt.window.maxBatched > rt.window.maxTrellis)
    ensures ok ==> forall t, h :: 0 <= t < |routes| && 0 <= h < accum.Length1 ==>
              accum[t, h] == Untiered(routes[t], |routes[t].ids|, At(expert, t, h))
    ensures !ok ==> forall t, h :: 0 <= t < accum.Length0 && 0 <= h < accum.Length1 ==> accum[t, h] == old(accum[t, h])
  {
    hide TiersOf, ByteSize, Tiered, Untiered;
    var m := |routes|;
    var w := rt.window;
    SomeTier(tiers, kOf);
    if m > w.maxBatched {
      return false;
    }
    var decode := Decodes(w, m);
    var specs := if decode then rt.decode else rt.prefill;
    var arena := if decode then rt.decodeArena else rt.prefillArena;
    for n := 0 to |tiers|
      invariant n > 0 ==> Accumulated(accum, m, tiers[..n], routes, expert)
      invariant n > 0 ==> specs != []
      invariant n == 0 ==>
                  forall t, h :: 0 <= t < accum.Length0 && 0 <= h < accum.Length1 ==> accum[t, h] == old(accum[t, h])
    {
      if specs == [] {
        return false;
      }
      assert ByteSize(specs[n]) <= arena.value;
      assert if specs == rt.decode && decode then w.minTrellis <= m <= w.maxTrellis else m <= w.maxBatched && rt.prefill != [];
      RunTier(accum, m, tiers, n, routes, expert);
    }
    assert tiers[..|tiers|] == tiers;
    forall t, h | 0 <= t < m && 0 <= h < accum.Length1
      ensures accum[t, h] == Untiered(routes[t], |routes[t].ids|, At(expert, t, h))
    {
      TieredIsUntiered(tiers, kOf, routes[t], |routes[t].ids|, At(expert, t, h));
    }
    ok := true;
  }

  /** One expert of width class 2, its tier, and a runtime whose capacity is its decode window of 2 to 4 tokens. */
  const ONE_TIER: seq<Tier> := [Tier(2, [0], [0])]
  const NO_PREFILL := Runtime(Window(2, 4, 4), [Spec([4], 1)], [], Some(4), None)

  /** A single token is within the capacity and refused all the same: it is below the decode window, and the
      capacity gave no reason to plan a prefill. */
  lemma {:induction false} SmallBatchIsRefused()
    ensures TiersOf(ONE_TIER, [2]) && Planned(NO_PREFILL, |ONE_TIER|)
    ensures 1 <= NO_PREFILL.window.maxBatched
    ensures 1 < NO_PREFILL.window.minTrellis && NO_PREFILL.window.maxBatched <= NO_PREFILL.window.maxTrellis
  {
    assert [2][..0] == [] && Members([], 2) == [] && Members([2], 2) == [0];
    assert ONE_TIER[0].k == 2;
    assert [4][..0] == [] && Product([]) == 1 && Product([4]) == 4;
  }

  lemma SomeTier(tiers: seq<Tier>, kOf: seq<int>)
    requires TiersOf(tiers, kOf) && kOf != []
    ensures tiers != []
  {
    assert kOf[0] in kOf;
    var i :| 0 <= i < |tiers| && tiers[i].k == kOf[0];
  }
}

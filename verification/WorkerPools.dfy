/** Machine classes and machine deployments: two generators that must agree, and the admission
  * that lets their zone lookups succeed. */
module WorkerPools {
  import opened Prelude
  import opened InfraConfig

  type Resources = map<string, int>

  datatype NodeTemplate = NodeTemplate(capacity: Option<Resources>, virtualCapacity: Option<Resources>)

  /** A pool's provider configuration: none, raw text that does not decode, or one that does; a
    * decodable configuration still has its own `encoding` until it is marshalled again. */
  datatype ProviderConfig =
    | NoConfig
    | Undecodable(raw: string)
    | Decodable(nodeTemplate: Option<NodeTemplate>, encoding: string)

  /** `rest` stands for everything else of the pool that the library hash reads. */
  datatype Pool = Pool(name: string, zones: seq<string>, nodeTemplate: Option<NodeTemplate>, config: ProviderConfig, rest: string)

  const MARSHALLED := ""

  /** The library's pool hash, over the stripped pool and the additional data. */
  type Hash = (Pool, seq<string>) -> Option<string>

  // ---- stripping virtual capacity ----

  function WithoutVirtual(t: Option<NodeTemplate>): Option<NodeTemplate> {
    if t.Some? then Some(t.value.(virtualCapacity := None)) else None
  }

  /** `stripVirtualCapacity` on a copy of the pool: undecodable text is left alone. */
  function Strip(p: Pool): Pool {
    p.(nodeTemplate := WithoutVirtual(p.nodeTemplate),
       config := if p.config.Decodable? then Decodable(WithoutVirtual(p.config.nodeTemplate), MARSHALLED) else p.config)
  }

  function PoolHash(hash: Hash, p: Pool, data: seq<string>): Option<string> { hash(Strip(p), data) }

  predicate SameTemplateButVirtual(a: Option<NodeTemplate>, b: Option<NodeTemplate>) {
    (a.Some? <==> b.Some?) && (a.Some? ==> a.value.capacity == b.value.capacity)
  }

  /** The pools differ at most in virtual capacity and in how a decodable configuration is written. */
  predicate SameButVirtual(p: Pool, q: Pool) {
    && p.name == q.name && p.zones == q.zones && p.rest == q.rest
    && SameTemplateButVirtual(p.nodeTemplate, q.nodeTemplate)
    && if p.config.Decodable? && q.config.Decodable? then SameTemplateButVirtual(p.config.nodeTemplate, q.config.nodeTemplate)
       else p.config == q.config
  }

  /** Exactly the pools that differ in nothing but virtual capacity hash alike under
    * every hash function, so such a change renames no machine class. */
  lemma HashIgnoresExactlyVirtual(p: Pool, q: Pool, data: seq<string>)
    ensures (forall hash: Hash :: PoolHash(hash, p, data) == PoolHash(hash, q, data)) <==> SameButVirtual(p, q)
  {
    if SameButVirtual(p, q) {
      assert Strip(p) == Strip(q);
    } else {
      var target := Strip(p);
      var hash: Hash := (x: Pool, d: seq<string>) => if x == target then Some("p") else None;
      assert Strip(p) != Strip(q) by { StripSeparates(p, q); }
      assert PoolHash(hash, p, data) != PoolHash(hash, q, data);
    }
  }

  lemma StripSeparates(p: Pool, q: Pool)
    ensures Strip(p) == Strip(q) <==> SameButVirtual(p, q)
  {
  }

  // ---- names ----

  const SHOOT_PREFIX := "shoot--"

  function TrimShoot(namespace: string): string {
    if SHOOT_PREFIX <= namespace then namespace[|SHOOT_PREFIX|..] else namespace
  }

  function Digit(d: nat): char
    requires d < 10
  {
    "0123456789"[d]
  }

  function Decimal(n: nat): (s: string)
    ensures s != "" && '-' !in s
  {
    if n < 10 then [Digit(n)] else Decimal(n / 10) + [Digit(n % 10)]
  }

  lemma DigitInjective(a: nat, b: nat)
    requires a < 10 && b < 10 && Digit(a) == Digit(b)
    ensures a == b
  {
  }

  lemma {:induction false} DecimalInjective(a: nat, b: nat)
    requires Decimal(a) == Decimal(b)
    ensures a == b
  {
    var s, t := Decimal(a), Decimal(b);
    assert s[|s| - 1] == Digit(a % 10) && t[|t| - 1] == Digit(b % 10);
    DigitInjective(a % 10, b % 10);
    if a >= 10 && b >= 10 {
      assert s[..|s| - 1] == Decimal(a / 10) && t[..|t| - 1] == Decimal(b / 10);
      DecimalInjective(a / 10, b / 10);
    }
  }

  /** `prefix-pool-n`, with `n` counting zones from one. */
  function DeploymentName(prefix: string, pool: string, zone: nat): string {
    prefix + "-" + pool + "-" + Decimal(zone + 1)
  }

  /** The part after the last hyphen is determined. */
  lemma LastHyphen(a: string, d: string, b: string, e: string)
    requires '-' !in d && '-' !in e && a + "-" + d == b + "-" + e
    ensures a == b && d == e
  {
    var s, t := a + "-" + d, b + "-" + e;
    assert s[|a|] == '-' && t[|b|] == '-';
    assert |a| <= |b| by {
      forall i | |b| < i < |t| ensures t[i] != '-' { assert t[i] == e[i - |b| - 1]; }
    }
    assert |b| <= |a| by {
      forall i | |a| < i < |s| ensures s[i] != '-' { assert s[i] == d[i - |a| - 1]; }
    }
    assert a == s[..|a|] && b == t[..|b|] && d == s[|a| + 1..] && e == t[|b| + 1..];
  }

  /** Main result: two deployment names are equal exactly when index and `prefix-pool` part are;
    * under one naming scheme, exactly when index and pool name are. */
  lemma NamesEqualExactly(p: string, pool: string, i: nat, q: string, other: string, j: nat)
    ensures DeploymentName(p, pool, i) == DeploymentName(q, other, j) <==> p + "-" + pool == q + "-" + other && i == j
    ensures DeploymentName(p, pool, i) == DeploymentName(p, other, j) <==> pool == other && i == j
  {
    if DeploymentName(p, pool, i) == DeploymentName(q, other, j) {
      LastHyphen(p + "-" + pool, Decimal(i + 1), q + "-" + other, Decimal(j + 1));
      DecimalInjective(i + 1, j + 1);
    }
    if DeploymentName(p, pool, i) == DeploymentName(p, other, j) {
      LastHyphen(p + "-" + pool, Decimal(i + 1), p + "-" + other, Decimal(j + 1));
      DecimalInjective(i + 1, j + 1);
      assert (p + "-" + pool)[|p| + 1..] == pool && (p + "-" + other)[|p| + 1..] == other;
    }
  }

  /** The number a text of decimal digits stands for. */
  ghost function Value(s: string): int {
    if s == "" then 0 else 10 * Value(s[..|s| - 1]) + (s[|s| - 1] as int - 48)
  }

  lemma {:induction false} DecimalIs(n: nat)
    ensures Value(Decimal(n)) == n && (forall i :: 0 <= i < |Decimal(n)| ==> 48 <= Decimal(n)[i] as int <= 57)
    ensures n > 0 ==> Decimal(n)[0] != '0'
  {
    var s := Decimal(n);
    if n < 10 {
      assert s[..0] == "" && Value(s[..0]) == 0;
    } else {
      DecimalIs(n / 10);
      assert s[..|s| - 1] == Decimal(n / 10);
    }
  }

  // ---- the generators ----

  /** What the API answers for a legacy deployment name. */
  datatype Legacy = Present | Absent | Failure

  /** What both generators read of the worker and its cluster. */
  datatype Worker = Worker(
    namespace: string, pools: seq<Pool>, enableEgress: Option<bool>, zoneSubnets: seq<ZoneStatus>, endpoints: seq<Endpoint>)

  datatype Endpoint = Endpoint(name: string, managementAPI: string)

  /** `ready(pool)` says that configuration, image, disks and user data of the pool were obtained. */
  datatype World = World(legacy: string -> Legacy, hash: Hash, ready: Pool -> bool)

  datatype Class = Class(name: string, zone: string, subnet: string, url: string)

  datatype Deployment = Deployment(name: string, poolName: string, className: string)

  function DetermineName(w: Worker, world: World, pool: Pool, zone: nat): Option<string> {
    var legacyName := DeploymentName(w.namespace, pool.name, zone);
    match world.legacy(legacyName)
    case Present => Some(legacyName)
    case Failure => None
    case Absent => Some(DeploymentName(TrimShoot(w.namespace), pool.name, zone))
  }

  function FormatBool(b: bool): string { if b then "true" else "false" }

  function AdditionalData(w: Worker, zone: string): seq<string> {
    [zone] + if w.enableEgress.Some? then [FormatBool(w.enableEgress.value)] else []
  }

  function ClassName(w: Worker, world: World, pool: Pool, zone: nat): Option<string>
    requires zone < |pool.zones|
  {
    var name, hash := DetermineName(w, world, pool, zone), PoolHash(world.hash, pool, AdditionalData(w, pool.zones[zone]));
    if name.Some? && hash.Some? then Some(name.value + "-" + hash.value) else None
  }

  /** What the hash covers besides the pool: the zone's name, and the egress flag if it is set. */
  lemma DataIs(w: Worker, zone: string)
    ensures AdditionalData(w, zone) ==
      if w.enableEgress == None then [zone] else [zone, if w.enableEgress == Some(true) then "true" else "false"]
  {
  }

  /** The namespace without a leading "shoot--". */
  lemma TrimIs(namespace: string)
    ensures forall rest :: namespace == "shoot--" + rest ==> TrimShoot(namespace) == rest
    ensures (forall rest :: namespace != "shoot--" + rest) ==> TrimShoot(namespace) == namespace
  {
    forall rest | namespace == "shoot--" + rest ensures TrimShoot(namespace) == rest {
      assert namespace[7..] == rest;
    }
    if "shoot--" <= namespace { assert namespace == "shoot--" + namespace[7..]; }
  }

  /** What the class name is made of: the deployment's name, which is the full namespace, the pool and
    * the zone's number if a deployment of that name exists, and has no leading "shoot--" if none does;
    * and the hash of the stripped pool and the data above. */
  lemma ClassNameIs(w: Worker, world: World, pool: Pool, zone: nat)
    requires zone < |pool.zones|
    ensures var rest := "-" + pool.name + "-" + Decimal(zone + 1);
      var full, hash := w.namespace + rest, world.hash(Strip(pool), AdditionalData(w, pool.zones[zone]));
      ClassName(w, world, pool, zone) ==
        if world.legacy(full).Failure? || hash.None? then None
        else if world.legacy(full).Present? then Some(full + "-" + hash.value)
        else Some(TrimShoot(w.namespace) + rest + "-" + hash.value)
  {
    var rest := "-" + pool.name + "-" + Decimal(zone + 1);
    assert DeploymentName(w.namespace, pool.name, zone) == w.namespace + rest;
    assert DeploymentName(TrimShoot(w.namespace), pool.name, zone) == TrimShoot(w.namespace) + rest;
  }

  /** A change of virtual capacity alone renames no machine class. */
  lemma VirtualRenamesNothing(w: Worker, world: World, p: Pool, q: Pool, zone: nat)
    requires SameButVirtual(p, q) && zone < |p.zones|
    ensures ClassName(w, world, p, zone) == ClassName(w, world, q, zone)
  {
    HashIgnoresExactlyVirtual(p, q, AdditionalData(w, p.zones[zone]));
  }

  function FindSubnet(name: string, zones: seq<ZoneStatus>): Option<string> {
    if zones == [] then None
    else if zones[0].name == name && zones[0].subnet != "" then Some(zones[0].subnet)
    else FindSubnet(name, zones[1..])
  }

  function FindManagementURL(name: string, endpoints: seq<Endpoint>): Option<string> {
    if endpoints == [] then None
    else if endpoints[0].name == name then Some(endpoints[0].managementAPI)
    else FindManagementURL(name, endpoints[1..])
  }

  /** The subnet found is that of the first status of the zone that has one. */
  lemma {:induction false} SubnetExactly(name: string, zones: seq<ZoneStatus>)
    ensures match FindSubnet(name, zones)
      case Some(x) => exists i :: 0 <= i < |zones| && zones[i] == ZoneStatus(name, x) && x != ""
                        && forall j :: 0 <= j < i ==> zones[j].name != name || zones[j].subnet == ""
      case None => forall j :: 0 <= j < |zones| ==> zones[j].name != name || zones[j].subnet == ""
  {
    if zones != [] && !(zones[0].name == name && zones[0].subnet != "") {
      var rest := zones[1..];
      SubnetExactly(name, rest);
      assert forall j :: 1 <= j < |zones| ==> zones[j] == rest[j - 1];
      if FindSubnet(name, rest).Some? {
        var i :| 0 <= i < |rest| && rest[i] == ZoneStatus(name, FindSubnet(name, rest).value)
          && forall j :: 0 <= j < i ==> rest[j].name != name || rest[j].subnet == "";
        assert zones[i + 1] == rest[i];
      }
    }
  }

  /** The URL found is that of the first endpoint of the zone. */
  lemma {:induction false} URLExactly(name: string, endpoints: seq<Endpoint>)
    ensures match FindManagementURL(name, endpoints)
      case Some(x) => exists i :: 0 <= i < |endpoints| && endpoints[i] == Endpoint(name, x)
                        && forall j :: 0 <= j < i ==> endpoints[j].name != name
      case None => forall j :: 0 <= j < |endpoints| ==> endpoints[j].name != name
  {
    if endpoints != [] && endpoints[0].name != name {
      var rest := endpoints[1..];
      URLExactly(name, rest);
      assert forall j :: 1 <= j < |endpoints| ==> endpoints[j] == rest[j - 1];
      if FindManagementURL(name, rest).Some? {
        var i :| 0 <= i < |rest| && rest[i] == Endpoint(name, FindManagementURL(name, rest).value)
          && forall j :: 0 <= j < i ==> rest[j].name != name;
        assert endpoints[i + 1] == rest[i];
      }
    }
  }

  /** A zone of a pool, in the order both nested loops visit them. */
  datatype Slot = Slot(pool: Pool, zone: nat)

  function PoolSlots(p: Pool, n: nat): (r: seq<Slot>)
    requires n <= |p.zones|
    ensures |r| == n && forall i :: 0 <= i < n ==> r[i] == Slot(p, i)
  {
    seq(n, i requires 0 <= i < n => Slot(p, i))
  }

  function Slots(pools: seq<Pool>): (r: seq<Slot>)
    ensures forall s :: s in r ==> s.zone < |s.pool.zones|
  {
    if pools == [] then [] else Slots(pools[..|pools| - 1]) + PoolSlots(pools[|pools| - 1], |pools[|pools| - 1].zones|)
  }

  /** The slots of one more pool, and of one more zone of a pool. */
  lemma SlotsNext(pools: seq<Pool>, i: nat)
    requires i < |pools|
    ensures Slots(pools[..i + 1]) == Slots(pools[..i]) + PoolSlots(pools[i], |pools[i].zones|)
  {
    assert pools[..i + 1][..i] == pools[..i];
  }

  lemma PoolSlotsNext(before: seq<Slot>, pool: Pool, j: nat)
    requires j < |pool.zones|
    ensures before + PoolSlots(pool, j + 1) == before + PoolSlots(pool, j) + [Slot(pool, j)]
  {
    assert PoolSlots(pool, j + 1) == PoolSlots(pool, j) + [Slot(pool, j)];
  }

  ghost predicate ClassOf(c: Class, s: Slot, w: Worker, world: World) {
    && s.zone < |s.pool.zones| && ClassName(w, world, s.pool, s.zone) == Some(c.name) && c.zone == s.pool.zones[s.zone]
    && FindSubnet(c.zone, w.zoneSubnets) == Some(c.subnet) && FindManagementURL(c.zone, w.endpoints) == Some(c.url)
  }

  ghost predicate DeploymentOf(d: Deployment, s: Slot, w: Worker, world: World) {
    && s.zone < |s.pool.zones| && DetermineName(w, world, s.pool, s.zone) == Some(d.name) && d.poolName == s.pool.name
    && ClassName(w, world, s.pool, s.zone) == Some(d.className)
  }

  /** The slot's class can be generated. */
  predicate HasClass(s: Slot, w: Worker, world: World)
    requires s.zone < |s.pool.zones|
  {
    && ClassName(w, world, s.pool, s.zone).Some?
    && FindSubnet(s.pool.zones[s.zone], w.zoneSubnets).Some? && FindManagementURL(s.pool.zones[s.zone], w.endpoints).Some?
  }

  lemma {:induction false} SlotsReach(pools: seq<Pool>, i: nat)
    requires i < |pools|
    ensures forall j :: 0 <= j < |pools[i].zones| ==> Slot(pools[i], j) in Slots(pools)
  {
    var n := |pools| - 1;
    if i < n {
      SlotsReach(pools[..n], i);
    } else {
      forall j | 0 <= j < |pools[i].zones| ensures Slot(pools[i], j) in Slots(pools) {
        assert PoolSlots(pools[n], |pools[n].zones|)[j] == Slot(pools[i], j);
      }
    }
  }

  /** One class per slot, in order. */
  ghost predicate Classes(cs: seq<Class>, ss: seq<Slot>, w: Worker, world: World) {
    |cs| == |ss| && forall i :: 0 <= i < |cs| ==> ClassOf(cs[i], ss[i], w, world)
  }

  ghost predicate Deployments(ds: seq<Deployment>, ss: seq<Slot>, w: Worker, world: World) {
    |ds| == |ss| && forall i :: 0 <= i < |ds| ==> DeploymentOf(ds[i], ss[i], w, world)
  }

  method GenerateMachineClasses(w: Worker, world: World) returns (ok: bool, classes: seq<Class>)
    ensures ok ==> Classes(classes, Slots(w.pools), w, world)
    ensures ok <==>
      (forall i :: 0 <= i < |w.pools| ==> world.ready(w.pools[i])) && (forall s :: s in Slots(w.pools) ==> HasClass(s, w, world))
  {
    classes := [];
    for i := 0 to |w.pools|
      invariant Classes(classes, Slots(w.pools[..i]), w, world)
      invariant forall k :: 0 <= k < i ==> world.ready(w.pools[k])
    {
      SlotsReach(w.pools, i);
      var pool := w.pools[i];
      if !world.ready(pool) { return false, []; }
      for j := 0 to |pool.zones|
        invariant Classes(classes, Slots(w.pools[..i]) + PoolSlots(pool, j), w, world)
      {
        var zone := pool.zones[j];
        assert Slot(pool, j) in Slots(w.pools);
        var className := ClassName(w, world, pool, j);
        if className.None? { return false, []; }
        var subnet := FindSubnet(zone, w.zoneSubnets);
        if subnet.None? { return false, []; }
        var url := FindManagementURL(zone, w.endpoints);
        if url.None? { return false, []; }
        PoolSlotsNext(Slots(w.pools[..i]), pool, j);
        classes := classes + [Class(className.value, zone, subnet.value, url.value)];
      }
      SlotsNext(w.pools, i);
    }
    assert w.pools[..|w.pools|] == w.pools;
    ok := true;
    forall s | s in Slots(w.pools) ensures HasClass(s, w, world) {
      var i :| 0 <= i < |classes| && Slots(w.pools)[i] == s;
      assert ClassOf(classes[i], s, w, world);
    }
  }

  method GenerateMachineDeployments(w: Worker, world: World) returns (ok: bool, deployments: seq<Deployment>)
    ensures ok ==> Deployments(deployments, Slots(w.pools), w, world)
    ensures ok <==> forall s :: s in Slots(w.pools) ==> ClassName(w, world, s.pool, s.zone).Some?
  {
    deployments := [];
    for i := 0 to |w.pools|
      invariant Deployments(deployments, Slots(w.pools[..i]), w, world)
    {
      SlotsReach(w.pools, i);
      var pool := w.pools[i];
      for j := 0 to |pool.zones|
        invariant Deployments(deployments, Slots(w.pools[..i]) + PoolSlots(pool, j), w, world)
      {
        assert Slot(pool, j) in Slots(w.pools);
        var name := DetermineName(w, world, pool, j);
        if name.None? { return false, []; }
        var className := ClassName(w, world, pool, j);
        if className.None? { return false, []; }
        PoolSlotsNext(Slots(w.pools[..i]), pool, j);
        deployments := deployments + [Deployment(name.value, pool.name, className.value)];
      }
      SlotsNext(w.pools, i);
    }
    assert w.pools[..|w.pools|] == w.pools;
    ok := true;
    forall s | s in Slots(w.pools) ensures ClassName(w, world, s.pool, s.zone).Some? {
      var i :| 0 <= i < |deployments| && Slots(w.pools)[i] == s;
      assert DeploymentOf(deployments[i], s, w, world);
    }
  }

  /** The slot's deployment keeps the name with the full namespace. */
  predicate IsLegacy(w: Worker, world: World, s: Slot) {
    world.legacy(DeploymentName(w.namespace, s.pool.name, s.zone)).Present?
  }

  /** Main result: the i-th deployment refers to the i-th class exactly when both generators see the
    * same legacy answer for it, or the namespace has no prefix to trim; `later` is the cluster as the
    * second generator finds it. */
  lemma GeneratorsAgreeExactly(w: Worker, world: World, later: World, classes: seq<Class>, deployments: seq<Deployment>)
    requires Classes(classes, Slots(w.pools), w, world) && Deployments(deployments, Slots(w.pools), w, later)
    requires world.hash == later.hash
    ensures |classes| == |deployments|
    ensures forall i :: 0 <= i < |classes| ==>
      (deployments[i].className == classes[i].name <==>
        (IsLegacy(w, world, Slots(w.pools)[i]) <==> IsLegacy(w, later, Slots(w.pools)[i])) || !(SHOOT_PREFIX <= w.namespace))
  {
    forall i | 0 <= i < |classes|
      ensures deployments[i].className == classes[i].name <==>
        (IsLegacy(w, world, Slots(w.pools)[i]) <==> IsLegacy(w, later, Slots(w.pools)[i])) || !(SHOOT_PREFIX <= w.namespace)
    {
      var s := Slots(w.pools)[i];
      assert ClassOf(classes[i], s, w, world) && DeploymentOf(deployments[i], s, w, later);
      var hash := PoolHash(world.hash, s.pool, AdditionalData(w, s.pool.zones[s.zone])).value;
      var a, b := DetermineName(w, world, s.pool, s.zone).value, DetermineName(w, later, s.pool, s.zone).value;
      SameSuffix(a, b, "-" + hash);
      assert a + "-" + hash == a + ("-" + hash) && b + "-" + hash == b + ("-" + hash);
      NamesEqualExactly(w.namespace, s.pool.name, s.zone, TrimShoot(w.namespace), s.pool.name, s.zone);
      SameSuffix(w.namespace, TrimShoot(w.namespace), "-" + s.pool.name);
      assert w.namespace + "-" + s.pool.name == w.namespace + ("-" + s.pool.name);
      assert TrimShoot(w.namespace) + "-" + s.pool.name == TrimShoot(w.namespace) + ("-" + s.pool.name);
    }
  }

  lemma SameSuffix(a: string, b: string, t: string)
    ensures a + t == b + t <==> a == b
  {
    if a + t == b + t {
      assert |a| == |b| && a == (a + t)[..|a|] && b == (b + t)[..|b|];
    }
  }

  predicate DistinctPoolNames(pools: seq<Pool>) {
    forall i, j :: 0 <= i < j < |pools| ==> pools[i].name != pools[j].name
  }

  lemma {:induction false} SlotsOf(pools: seq<Pool>, s: Slot)
    ensures s in Slots(pools) ==> exists k :: 0 <= k < |pools| && pools[k] == s.pool
  {
    if pools != [] {
      var n := |pools| - 1;
      SlotsOf(pools[..n], s);
      if s in Slots(pools[..n]) {
        var k :| 0 <= k < n && pools[..n][k] == s.pool;
        assert pools[k] == s.pool;
      }
    }
  }

  /** Distinct pool names give slots that differ in pool name or zone index. */
  lemma {:induction false} SlotsDiffer(pools: seq<Pool>, i: nat, j: nat)
    requires DistinctPoolNames(pools) && i < j < |Slots(pools)|
    ensures var a, b := Slots(pools)[i], Slots(pools)[j]; a.pool.name != b.pool.name || a.zone != b.zone
  {
    var n := |pools| - 1;
    var before := Slots(pools[..n]);
    if j < |before| {
      SlotsDiffer(pools[..n], i, j);
    } else if i < |before| {
      SlotsOf(pools[..n], before[i]);
    }
  }

  /** A legacy name and a new name of one zone index are the same text. */
  predicate SchemesCollide(namespace: string, legacyPool: string, newPool: string) {
    namespace + "-" + legacyPool == TrimShoot(namespace) + "-" + newPool
  }

  /** A deployment that keeps its legacy name collides with one that has a new name. */
  predicate Collides(w: Worker, world: World, a: Slot, b: Slot) {
    IsLegacy(w, world, a) && !IsLegacy(w, world, b) && a.zone == b.zone && SchemesCollide(w.namespace, a.pool.name, b.pool.name)
  }

  lemma SlotNamesDiffer(w: Worker, world: World, i: nat, j: nat)
    requires DistinctPoolNames(w.pools) && i < j < |Slots(w.pools)|
    requires DetermineName(w, world, Slots(w.pools)[i].pool, Slots(w.pools)[i].zone).Some?
    requires DetermineName(w, world, Slots(w.pools)[j].pool, Slots(w.pools)[j].zone).Some?
    ensures var a, b := Slots(w.pools)[i], Slots(w.pools)[j];
      DetermineName(w, world, a.pool, a.zone) != DetermineName(w, world, b.pool, b.zone)
      <==> !Collides(w, world, a, b) && !Collides(w, world, b, a)
  {
    var a, b := Slots(w.pools)[i], Slots(w.pools)[j];
    var old_, new_ := w.namespace, TrimShoot(w.namespace);
    SlotsDiffer(w.pools, i, j);
    NamesEqualExactly(old_, a.pool.name, a.zone, new_, b.pool.name, b.zone);
    NamesEqualExactly(new_, a.pool.name, a.zone, old_, b.pool.name, b.zone);
    NamesEqualExactly(old_, a.pool.name, a.zone, old_, b.pool.name, b.zone);
    NamesEqualExactly(new_, a.pool.name, a.zone, new_, b.pool.name, b.zone);
  }

  lemma NamesDifferOrCollide(w: Worker, world: World, ds: seq<Deployment>)
    requires Deployments(ds, Slots(w.pools), w, world) && DistinctPoolNames(w.pools)
    ensures (forall i, j :: 0 <= i < j < |ds| ==> ds[i].name != ds[j].name)
       <==> (forall a, b :: a in Slots(w.pools) && b in Slots(w.pools) ==> !Collides(w, world, a, b))
  {
    var slots := Slots(w.pools);
    forall i, j | 0 <= i < j < |ds|
      ensures ds[i].name != ds[j].name <==> !Collides(w, world, slots[i], slots[j]) && !Collides(w, world, slots[j], slots[i])
    {
      assert DeploymentOf(ds[i], slots[i], w, world) && DeploymentOf(ds[j], slots[j], w, world);
      SlotNamesDiffer(w, world, i, j);
    }
    if a, b :| a in slots && b in slots && Collides(w, world, a, b) {
      var i :| 0 <= i < |slots| && slots[i] == a;
      var j :| 0 <= j < |slots| && slots[j] == b;
      assert i != j;
      assert ds[i].name == ds[j].name;
    }
  }

  /** The trimmed namespace and a hyphen start the namespace itself. */
  predicate Shifted(namespace: string) {
    SHOOT_PREFIX <= namespace && TrimShoot(namespace) + "-" <= namespace
  }

  /** Some two pool names collide exactly for such namespaces. */
  lemma CollisionPossibleExactly(namespace: string)
    ensures (exists a, b :: a != b && SchemesCollide(namespace, a, b)) <==> Shifted(namespace)
  {
    var t := TrimShoot(namespace);
    if a, b :| a != b && SchemesCollide(namespace, a, b) {
      assert a == (namespace + "-" + a)[|namespace| + 1..] && b == (t + "-" + b)[|t| + 1..];
      assert SHOOT_PREFIX <= namespace;
      assert t + "-" == (t + "-" + b)[..|t| + 1] == (namespace + "-" + a)[..|t| + 1] == namespace[..|t| + 1];
    }
    if Shifted(namespace) {
      var whole := namespace + "-" + "a";
      var b := whole[|t| + 1..];
      assert whole == whole[..|t| + 1] + b && whole[..|t| + 1] == t + "-";
      assert SchemesCollide(namespace, "a", b);
    }
  }

  /** The characters of "shoot--" over and over. */
  function Cycle(i: nat): char {
    if i < 7 then SHOOT_PREFIX[i] else Cycle(i - 7)
  }

  lemma {:induction false} RepeatsPrefix(t: string, i: nat)
    requires t <= SHOOT_PREFIX + t && i < |t| + 7
    ensures (SHOOT_PREFIX + t)[i] == Cycle(i)
  {
    if i >= 7 {
      RepeatsPrefix(t, i - 7);
      assert (SHOOT_PREFIX + t)[i] == t[i - 7] == (SHOOT_PREFIX + t)[i - 7];
    }
  }

  /** A hyphen of the cycle is followed by the other one, or the other one follows six places on. */
  lemma {:induction false} HyphensOfCycle(n: nat)
    requires Cycle(n) == '-'
    ensures Cycle(n + 1) == '-' || Cycle(n + 6) == '-'
  {
    if n >= 7 { HyphensOfCycle(n - 7); }
  }

  /** The ends of an object name: neither is a hyphen. */
  predicate IsObjectName(s: string) { s != "" && s[0] != '-' && s[|s| - 1] != '-' }

  /** A collision repeats "shoot--" up to a hyphen, so one of the two names has one at an end. */
  lemma CollisionEnds(namespace: string, legacyPool: string, newPool: string)
    requires SchemesCollide(namespace, legacyPool, newPool) && legacyPool != newPool
    ensures newPool != "" && namespace != "" && (newPool[0] == '-' || namespace[|namespace| - 1] == '-')
  {
    CollisionPossibleExactly(namespace);
    ShiftedRepeats(namespace);
    var t := TrimShoot(namespace);
    HyphensOfCycle(|t|);
    assert |t + "-" + newPool| == |namespace + "-" + legacyPool|;
    assert newPool[0] == (t + "-" + newPool)[|t| + 1] == (namespace + "-" + legacyPool)[|t| + 1] == namespace[|t| + 1];
  }

  /** For object names a legacy name is never the text of another pool's new name. */
  lemma NoCollision(namespace: string, legacyPool: string, newPool: string)
    requires IsObjectName(namespace) && IsObjectName(newPool) && legacyPool != newPool
    ensures !SchemesCollide(namespace, legacyPool, newPool)
  {
    if SchemesCollide(namespace, legacyPool, newPool) { CollisionEnds(namespace, legacyPool, newPool); }
  }

  /** A shifted namespace has a hyphen of the cycle after the trimmed one, and goes on in the cycle. */
  lemma ShiftedRepeats(namespace: string)
    requires Shifted(namespace)
    ensures var n := |TrimShoot(namespace)|;
      |namespace| == n + 7 && Cycle(n) == '-' && namespace[n + 1] == Cycle(n + 1) && namespace[n + 6] == Cycle(n + 6)
  {
    var t := TrimShoot(namespace);
    assert namespace == SHOOT_PREFIX + t;
    assert t == (t + "-")[..|t|] == namespace[..|t|] && namespace[|t|] == (t + "-")[|t|];
    RepeatsPrefix(t, |t|);
    RepeatsPrefix(t, |t| + 1);
    RepeatsPrefix(t, |t| + 6);
  }

  /** Main result: with distinct pool names all deployment names differ, for every mix of deployments
    * that keep their legacy names and deployments with new ones. */
  lemma MixedNamesDiffer(w: Worker, world: World, ds: seq<Deployment>)
    requires Deployments(ds, Slots(w.pools), w, world) && DistinctPoolNames(w.pools)
    requires IsObjectName(w.namespace) && forall i :: 0 <= i < |w.pools| ==> IsObjectName(w.pools[i].name)
    ensures forall i, j :: 0 <= i < j < |ds| ==> ds[i].name != ds[j].name
  {
    forall a, b | a in Slots(w.pools) && b in Slots(w.pools) ensures !Collides(w, world, a, b) {
      SlotsOf(w.pools, b);
      if a.pool.name != b.pool.name { NoCollision(w.namespace, a.pool.name, b.pool.name); }
    }
    NamesDifferOrCollide(w, world, ds);
  }

  // ---- admission of worker pools ----

  datatype Volume = Volume(kind: Option<string>, size: string)

  /** A worker pool as the shoot declares it. */
  datatype ShootWorker = ShootWorker(name: string, zones: seq<string>, volume: Option<Volume>)

  datatype Error = NameMissing | NameTaken | ZonesMissing | ZoneUnknown | VolumeMissing | VolumeTypeMissing | VolumeSizeMissing

  predicate GoodWorker(w: ShootWorker, profileZones: set<string>, infraZones: set<string>) {
    && w.zones != [] && (forall i :: 0 <= i < |w.zones| ==> w.zones[i] in profileZones && w.zones[i] in infraZones)
    && w.volume.Some? && w.volume.value.kind.Some? && w.volume.value.size != ""
  }

  predicate GoodNames(ws: seq<ShootWorker>) {
    (forall i :: 0 <= i < |ws| ==> ws[i].name != "") && forall i, j :: 0 <= i < j < |ws| ==> ws[i].name != ws[j].name
  }

  function InfraZones(zones: seq<Zone>): set<string> { set z | z in zones :: z.name }

  method ValidateWorker(w: ShootWorker, profileZones: set<string>, infraZones: set<string>) returns (errs: seq<Error>)
    ensures errs == [] <==> GoodWorker(w, profileZones, infraZones)
  {
    errs := [];
    if w.zones == [] {
      errs := errs + [ZonesMissing];
    } else {
      for i := 0 to |w.zones|
        invariant errs == [] <==> forall k :: 0 <= k < i ==> w.zones[k] in profileZones && w.zones[k] in infraZones
      {
        if w.zones[i] !in profileZones || w.zones[i] !in infraZones { errs := errs + [ZoneUnknown]; }
      }
    }
    if w.volume.None? {
      errs := errs + [VolumeMissing];
    } else {
      if w.volume.value.kind.None? { errs := errs + [VolumeTypeMissing]; }
      if w.volume.value.size == "" { errs := errs + [VolumeSizeMissing]; }
    }
  }

  method ValidateWorkers(ws: seq<ShootWorker>, profileZones: set<string>, zones: seq<Zone>) returns (errs: seq<Error>)
    ensures errs == [] <==> GoodNames(ws) && forall i :: 0 <= i < |ws| ==> GoodWorker(ws[i], profileZones, InfraZones(zones))
  {
    errs := CheckNames(ws);
    ghost var before := errs;
    for i := 0 to |ws|
      invariant errs == [] <==> before == [] && forall k :: 0 <= k < i ==> GoodWorker(ws[k], profileZones, InfraZones(zones))
    {
      var more := ValidateWorker(ws[i], profileZones, InfraZones(zones));
      errs := errs + more;
    }
  }

  method CheckNames(ws: seq<ShootWorker>) returns (errs: seq<Error>)
    ensures errs == [] <==> GoodNames(ws)
  {
    errs := [];
    var names: set<string> := {};
    for i := 0 to |ws|
      invariant forall x :: x in names <==> exists k :: 0 <= k < i && ws[k].name == x
      invariant errs == [] <==>
        (forall k :: 0 <= k < i ==> ws[k].name != "") && forall k, l :: 0 <= k < l < i ==> ws[k].name != ws[l].name
    {
      if ws[i].name == "" {
        errs := errs + [NameMissing];
      } else if ws[i].name in names {
        errs := errs + [NameTaken];
      }
      names := names + {ws[i].name};
    }
  }

  /** `createKubeClients`: a client per configured zone, each found in the cloud profile. `loads`
    * says whether the client of a URL can be built. */
  method CreateKubeClients(zones: seq<Zone>, globalAPI: string, endpoints: seq<Endpoint>, loads: string -> bool)
    returns (ok: bool)
    ensures ok <==> globalAPI != "" && loads(globalAPI) && zones != [] && forall i :: 0 <= i < |zones| ==>
      var url := FindManagementURL(zones[i].name, endpoints); url.Some? && loads(url.value)
  {
    if globalAPI == "" || !loads(globalAPI) || zones == [] { return false; }
    for i := 0 to |zones|
      invariant forall k :: 0 <= k < i ==> var url := FindManagementURL(zones[k].name, endpoints); url.Some? && loads(url.value)
    {
      var url := FindManagementURL(zones[i].name, endpoints);
      if url.None? || !loads(url.value) { return false; }
    }
    ok := true;
  }

  /** The search finds the subnet of the zone when every entry of that name carries it. */
  lemma {:induction false} SubnetFound(zones: seq<ZoneStatus>, name: string, subnet: string)
    requires subnet != "" && (exists z :: z in zones && z.name == name)
    requires forall z :: z in zones && z.name == name ==> z.subnet == subnet
    ensures FindSubnet(name, zones) == Some(subnet)
  {
    assert zones == [zones[0]] + zones[1..];
    if zones[0].name != name { SubnetFound(zones[1..], name, subnet); }
  }

  lemma {:induction false} URLFound(name: string, endpoints: seq<Endpoint>)
    requires FindManagementURL(name, endpoints).Some?
    ensures Endpoint(name, FindManagementURL(name, endpoints).value) in endpoints
  {
    if endpoints[0].name != name { URLFound(name, endpoints[1..]); }
  }

  /** Main result: for an admitted worker pool, once the clients of the configuration could be built
    * and the reconcile reported its zones, both lookups succeed in every zone of the pool: with the
    * network subnet the reconcile created for the zone, and with a listed URL of the zone. */
  lemma AdmittedZonesResolve(job: Job, endpoints: seq<Endpoint>, w: ShootWorker, profileZones: set<string>, z: nat)
    requires GoodWorker(w, profileZones, InfraZones(job.Zones())) && z < |w.zones|
    requires forall i :: 0 <= i < |job.Zones()| ==> FindManagementURL(job.Zones()[i].name, endpoints).Some?
    ensures FindSubnet(w.zones[z], ZoneStatuses(job)) == Some(NetKey(job.infra.name, w.zones[z]).1)
    ensures exists url :: FindManagementURL(w.zones[z], endpoints) == Some(url) && Endpoint(w.zones[z], url) in endpoints
  {
    var name, zones := w.zones[z], ZoneStatuses(job);
    assert name in InfraZones(job.Zones());
    var zone :| zone in job.Zones() && zone.name == name;
    var i :| 0 <= i < |job.Zones()| && job.Zones()[i] == zone;
    assert zones[i] in zones && zones[i].name == name;
    SubnetFound(zones, name, NetKey(job.infra.name, name).1);
    URLFound(name, endpoints);
  }
}

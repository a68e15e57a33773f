/** The update validator for infrastructure configurations, and why an admitted edit never
  * tears down a live network. */
module ConfigUpdate {
  import opened Prelude
  import opened CloudApi
  import opened InfraConfig
  import opened InfraTasks
  import opened InfraRuns
  import opened TreeSafety

  datatype UpdateError =
    | OldMissing | NewMissing | NodeCIDRChanged | ParentSubnetChanged | ParentProjectChanged
    | MigratedName | MigratedNamespace | MigratedKind
    | ReferenceName | ReferenceNamespace | ReferenceKind | ReferenceRemoved | ReferenceAdded

  function When(condition: bool, e: UpdateError): seq<UpdateError> {
    if condition then [e] else []
  }

  function Deref(s: Option<string>): string {
    if s.Some? then s.value else ""
  }

  function DefaultKind(kind: string): string {
    if kind == "" then SINGLE_SUBNET else kind
  }

  function ValidateUpdate(old_: Option<Config>, new_: Option<Config>): seq<UpdateError> {
    if old_.None? then [OldMissing]
    else if new_.None? then [NewMissing]
    else
      var o, n := old_.value.networks, new_.value.networks;
      var migration := o.parentSubnet != n.parentSubnet && n.parentSubnet == "" && n.parentReference.Some?;
      When(o.nodeCIDR != n.nodeCIDR, NodeCIDRChanged)
      + (if migration then ValidateMigration(o, n)
         else When(o.parentSubnet != n.parentSubnet, ParentSubnetChanged)
              + When(o.parentSubnetProject != n.parentSubnetProject, ParentProjectChanged))
      + ValidateReferenceUpdate(o.parentReference, n.parentReference, migration)
  }

  function ValidateMigration(o: Networks, n: Networks): seq<UpdateError>
    requires n.parentReference.Some?
  {
    var ref := n.parentReference.value;
    When(ref.name != o.parentSubnet, MigratedName)
    + When(Deref(ref.namespace) != o.parentSubnetProject, MigratedNamespace)
    + When(DefaultKind(ref.kind) != SINGLE_SUBNET, MigratedKind)
  }

  function ValidateReferenceUpdate(o: Option<SubnetReference>, n: Option<SubnetReference>, migration: bool): seq<UpdateError> {
    if o.Some? && n.Some? then
      When(o.value.name != n.value.name, ReferenceName)
      + When(Deref(o.value.namespace) != Deref(n.value.namespace), ReferenceNamespace)
      + When(o.value.kind != n.value.kind, ReferenceKind)
    else if o.Some? then [ReferenceRemoved]
    else When(n.Some? && !migration, ReferenceAdded)
  }

  /** The shoot validator skips the check for an unchanged configuration. */
  predicate Admitted(o: Config, n: Config) {
    o == n || ValidateUpdate(Some(o), Some(n)) == []
  }

  // ---- independent reading of the check ----

  /** The same text, where no text and the empty text are one. */
  predicate SameText(a: Option<string>, b: Option<string>) {
    a == b || (a == None && b == Some("")) || (a == Some("") && b == None)
  }

  predicate SameReference(a: SubnetReference, b: SubnetReference) {
    a.name == b.name && SameText(a.namespace, b.namespace) && a.kind == b.kind
  }

  predicate SameParentFields(o: Networks, n: Networks) {
    && o.parentSubnet == n.parentSubnet && o.parentSubnetProject == n.parentSubnetProject
    && (o.parentReference.Some? <==> n.parentReference.Some?)
    && (o.parentReference.Some? ==> SameReference(o.parentReference.value, n.parentReference.value))
  }

  /** The legacy name is dropped and the reference names the very same single subnet. */
  predicate Migrates(o: Networks, n: Networks) {
    && o.parentSubnet != "" && n.parentSubnet == "" && n.parentReference.Some?
    && n.parentReference.value.name == o.parentSubnet
    && SameText(n.parentReference.value.namespace, Some(o.parentSubnetProject))
    && n.parentReference.value.kind in {"", "SingleSubnet"}
    && (o.parentReference.Some? ==> SameReference(o.parentReference.value, n.parentReference.value))
  }

  lemma AdmittedExactly(o: Config, n: Config)
    ensures ValidateUpdate(Some(o), Some(n)) == [] <==>
      o.networks.nodeCIDR == n.networks.nodeCIDR
      && (SameParentFields(o.networks, n.networks) || Migrates(o.networks, n.networks))
  {
  }

  /** The zone list is not compared: any change of zones alone is admitted, removal included. */
  lemma ZonesAreFree(c: Config, zones: seq<Zone>)
    ensures Admitted(c, c.(networks := c.networks.(zones := zones)))
  {
    AdmittedExactly(c, c.(networks := c.networks.(zones := zones)));
  }

  // ---- what an admitted edit preserves ----

  function DefaultedParent(net: Networks, project: string): Parent {
    var p := EffectiveParent(net, project);
    p.(kind := DefaultKind(p.kind))
  }

  lemma EditKeepsParent(o: Config, n: Config, project: string)
    requires Admitted(o, n)
    ensures o.networks.nodeCIDR == n.networks.nodeCIDR
    ensures DefaultedParent(o.networks, project) == DefaultedParent(n.networks, project)
  {
    if o != n { AdmittedExactly(o, n); }
  }

  /** Before defaulting, the kind the actuator writes changes on exactly one admitted edit: a
    * migration to a reference without a kind. */
  lemma RawKindChangesExactly(o: Config, n: Config, project: string)
    requires Admitted(o, n)
    ensures EffectiveParent(o.networks, project) != EffectiveParent(n.networks, project) <==>
      o.networks.parentReference.None? && n.networks.parentReference.Some? && n.networks.parentReference.value.kind == ""
  {
    if o != n { AdmittedExactly(o, n); }
  }

  predicate Chain(cs: seq<Config>) {
    forall i :: 0 <= i < |cs| - 1 ==> Admitted(cs[i], cs[i + 1])
  }

  lemma {:induction false} ChainKeepsParent(cs: seq<Config>, project: string, i: nat, j: nat)
    requires Chain(cs) && i <= j < |cs|
    ensures cs[i].networks.nodeCIDR == cs[j].networks.nodeCIDR
    ensures DefaultedParent(cs[i].networks, project) == DefaultedParent(cs[j].networks, project)
    decreases j - i
  {
    if i < j {
      ChainKeepsParent(cs, project, i, j - 1);
      var o, n := cs[j - 1], cs[j];
      assert Admitted(o, n);
      EditKeepsParent(o, n, project);
    }
  }

  // ---- runs of the actuator along a chain of edits ----

  datatype World = World(job: Job, sys: System)

  /** One step of the running activation, or an admitted edit and a new activation. */
  datatype Event = Step(step: InfraRuns.Step) | Edit(config: Config)

  predicate Usable(w: World) { WellFormed(w.job, w.sys) }

  predicate Allowed(w: World, ev: Event) {
    ev.Edit? ==> Admitted(w.job.config, ev.config) && ev.config.networks.zones != []
  }

  function Move(w: World, ev: Event): (r: World)
    requires Usable(w) && Allowed(w, ev)
    ensures Usable(r)
  {
    match ev
    case Step(step) => World(w.job, Fire(w.job, w.sys, step))
    case Edit(c) => var job := w.job.(config := c); World(job, ReconcileStart(job, w.sys.stores))
  }

  ghost predicate Legal(w: World, evs: seq<Event>)
    requires Usable(w)
    decreases |evs|
  {
    evs == [] || (Allowed(w, evs[0]) && Legal(Move(w, evs[0]), evs[1..]))
  }

  ghost function After(w: World, evs: seq<Event>): (r: World)
    requires Usable(w) && Legal(w, evs)
    ensures Usable(r)
    decreases |evs|
  {
    if evs == [] then w else After(Move(w, evs[0]), evs[1..])
  }

  /** States that neither write nor delete the root. */
  predicate SparesRoot(pc: Pc) {
    pc.AtBranch? || pc.Finished? || (pc.AtRoot? && (pc.root.RootGet? || pc.root.RootWait?))
  }

  lemma CallSparesRoot(job: Job, s: Stores, pc: Pc, e: Env)
    requires InRange(job, pc) && SparesRoot(pc) && RootOk(job, s)
    ensures var a := Act(job, s, pc, e);
      SparesRoot(a.pc) && job.Root() in a.stores.global && a.stores.global[job.Root()] == s.global[job.Root()]
  {
  }

  lemma EgressSparesGlobal(job: Job, s: Stores, pc: Pc, e: Env)
    requires InRange(job, pc) && IsEgressTask(pc)
    ensures Act(job, s, pc, e).stores.global == s.global
  {
    if !pc.Finished? { EgressTouches(job, pc); }
  }

  lemma EventSparesRoot(w: World, ev: Event)
    requires Usable(w) && Allowed(w, ev) && SparesRoot(w.sys.left) && RootOk(w.job, w.sys.stores)
    ensures var v := Move(w, ev);
      && v.job.infra == w.job.infra && SparesRoot(v.sys.left) && RootOk(v.job, v.sys.stores)
      && v.sys.stores.global[v.job.Root()] == w.sys.stores.global[w.job.Root()]
  {
    match ev
    case Step(Left(e)) => CallSparesRoot(w.job, w.sys.stores, w.sys.left, e);
    case Step(Right(e)) => EgressSparesGlobal(w.job, w.sys.stores, w.sys.right, e);
    case Step(Platform(_, _)) =>
    case Edit(c) => EditKeepsParent(w.job.config, c, w.job.infra.project);
  }

  /** Main result: once the root is reconciled, no activation on any chain of admitted edits ever
    * reaches the delete-and-recreate branch, and the root object never changes again. */
  lemma {:induction false} LiveRootStands(w: World, evs: seq<Event>)
    requires Usable(w) && Legal(w, evs) && SparesRoot(w.sys.left) && RootOk(w.job, w.sys.stores)
    ensures var v := After(w, evs);
      && v.job.infra == w.job.infra && SparesRoot(v.sys.left) && RootOk(v.job, v.sys.stores)
      && v.sys.stores.global[v.job.Root()] == w.sys.stores.global[w.job.Root()]
    decreases |evs|
  {
    if evs != [] {
      EventSparesRoot(w, evs[0]);
      LiveRootStands(Move(w, evs[0]), evs[1..]);
    }
  }
}

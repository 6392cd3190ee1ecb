/** pkg/controller/service/service_controller_extra.go and the monitoring, backup and
    logging controllers: from the extras of a Service to Applications. */
module Extras {
  import opened Wrappers
  import opened ExternalId
  import opened Applications

  datatype Kind = Monitoring | Backup | Logging

  /** `parameters` is None for a nil map. */
  datatype ExtraSpec = ExtraSpec(name: string, version: string, parameters: Option<Answers>)

  /** The spec of a Monitoring, Backup or Logging object. */
  datatype ExtraObject = ExtraObject(cluster: string, version: string, parameters: Option<Answers>)

  datatype Key = Key(kind: Kind, name: string)

  type Objects = map<Key, ExtraObject>

  function KindOf(name: string): Option<Kind> {
    if name == "monitoring" then Some(Monitoring)
    else if name == "backup" then Some(Backup)
    else if name == "logging" then Some(Logging)
    else None
  }

  function Suffix(kind: Kind): string {
    match kind case Monitoring => "-monitoring" case Backup => "-backup" case Logging => "-logging"
  }

  function KeyFor(service: string, kind: Kind): Key {
    Key(kind, service + Suffix(kind))
  }

  /** An empty parameters map is omitted when the object is written, and read back as nil. */
  function AsStored(parameters: Option<Answers>): Option<Answers> {
    if parameters == Some(map[]) then None else parameters
  }

  /** Logging gets the cluster name as a parameter; writing into a nil map panics. */
  predicate Panics(kind: Kind, parameters: Option<Answers>) {
    kind == Logging && parameters == None
  }

  function Parameters(kind: Kind, service: string, parameters: Option<Answers>): Option<Answers>
    requires !Panics(kind, parameters)
  {
    if kind == Logging then Some(parameters.value["clusterName" := service]) else parameters
  }

  /** One of the three manage...Extra functions. */
  function ManageOne(objects: Objects, service: string, replicas: nat, kind: Kind, extra: ExtraSpec): Objects
    requires !Panics(kind, extra.parameters)
  {
    var key, parameters := KeyFor(service, kind), Parameters(kind, service, extra.parameters);
    if replicas == 0 then objects - {key}
    else if key !in objects then objects[key := ExtraObject(service, extra.version, AsStored(parameters))]
    else if objects[key].version != extra.version || objects[key].parameters != parameters then
      objects[key := objects[key].(version := extra.version, parameters := AsStored(parameters))]
    else objects
  }

  datatype Managed = AllManaged | UnknownExtra(name: string) | NilParameters

  /** ManageExtras: in order, stopping at the first unknown name. */
  function ManageAll(objects: Objects, service: string, replicas: nat, extras: seq<ExtraSpec>): (Objects, Managed)
    decreases |extras|
  {
    if extras == [] then (objects, AllManaged)
    else
      match KindOf(extras[0].name)
      case None => (objects, UnknownExtra(extras[0].name))
      case Some(kind) =>
        if Panics(kind, extras[0].parameters) then (objects, NilParameters)
        else ManageAll(ManageOne(objects, service, replicas, kind, extras[0]), service, replicas, extras[1..])
  }

  /* ---- the last entry of each kind wins ---- */

  predicate Manageable(extras: seq<ExtraSpec>) {
    forall i | 0 <= i < |extras| ::
      KindOf(extras[i].name).Some? && !Panics(KindOf(extras[i].name).value, extras[i].parameters)
  }

  function LastOf(extras: seq<ExtraSpec>, kind: Kind): Option<ExtraSpec> {
    if extras == [] then None
    else
      match LastOf(extras[1..], kind)
      case Some(e) => Some(e)
      case None => if KindOf(extras[0].name) == Some(kind) then Some(extras[0]) else None
  }

  lemma {:induction false} LastOfIsManageable(extras: seq<ExtraSpec>, kind: Kind)
    requires Manageable(extras) && LastOf(extras, kind).Some?
    ensures !Panics(kind, LastOf(extras, kind).value.parameters)
  {
    hide KindOf;
    if LastOf(extras[1..], kind).Some? {
      LastOfIsManageable(extras[1..], kind);
    } else {
      assert extras[0] == extras[0];
    }
  }

  /** The object an entry asks for; an existing one keeps its cluster. */
  function Wanted(objects: Objects, service: string, kind: Kind, extra: ExtraSpec): ExtraObject
    requires !Panics(kind, extra.parameters)
  {
    var key := KeyFor(service, kind);
    ExtraObject(
      if key in objects then objects[key].cluster else service,
      extra.version, AsStored(Parameters(kind, service, extra.parameters)))
  }

  /** Objects come back from the API server with nil instead of empty parameters. */
  predicate Normal(objects: Objects) {
    forall k | k in objects :: objects[k].parameters == AsStored(objects[k].parameters)
  }

  lemma OneManaged(objects: Objects, service: string, replicas: nat, kind: Kind, extra: ExtraSpec)
    requires Normal(objects) && !Panics(kind, extra.parameters) && replicas > 0
    ensures ManageOne(objects, service, replicas, kind, extra)
      == objects[KeyFor(service, kind) := Wanted(objects, service, kind, extra)]
    ensures Normal(ManageOne(objects, service, replicas, kind, extra))
  {
    hide Suffix, KeyFor, Parameters;
    var key := KeyFor(service, kind);
    if key in objects && ManageOne(objects, service, replicas, kind, extra) == objects {
      assert objects == objects[key := objects[key]];
    }
  }

  /** An unknown name, or logging without parameters, ends the run; what came before stays. */
  lemma {:induction false} StopsAtBadEntry(
    objects: Objects, service: string, replicas: nat, extras: seq<ExtraSpec>, i: nat)
    requires i < |extras| && Manageable(extras[..i]) && !Manageable([extras[i]])
    ensures ManageAll(objects, service, replicas, extras) == (
      ManageAll(objects, service, replicas, extras[..i]).0,
      if KindOf(extras[i].name).None? then UnknownExtra(extras[i].name) else NilParameters)
    decreases i
  {
    hide KindOf, Panics, ManageOne;
    if i > 0 {
      var first := extras[..i][0];
      assert KindOf(first.name).Some? && !Panics(KindOf(first.name).value, first.parameters);
      assert extras[1..][..i - 1] == extras[..i][1..];
      var next := ManageOne(objects, service, replicas, KindOf(first.name).value, first);
      StopsAtBadEntry(next, service, replicas, extras[1..], i - 1);
    } else {
      assert extras[..0] == [];
    }
  }

  lemma KeysDiffer(service: string, a: Kind, b: Kind)
    ensures KeyFor(service, a) == KeyFor(service, b) <==> a == b
  {
  }

  ghost predicate SameAt(a: Objects, b: Objects, key: Key) {
    (key in a <==> key in b) && (key in a ==> a[key] == b[key])
  }

  /** With replicas, a listed kind ends up as its last entry asks, and a kind that is not
      listed is untouched. */
  lemma {:induction false} LastEntryWins(
    objects: Objects, service: string, replicas: nat, extras: seq<ExtraSpec>, kind: Kind)
    requires Normal(objects) && Manageable(extras) && replicas > 0
    ensures LastOf(extras, kind).Some? ==> !Panics(kind, LastOf(extras, kind).value.parameters)
    ensures var (after, verdict) := ManageAll(objects, service, replicas, extras);
      var key := KeyFor(service, kind);
      && verdict == AllManaged && Normal(after)
      && match LastOf(extras, kind)
         case None => SameAt(objects, after, key)
         case Some(e) => key in after && after[key] == Wanted(objects, service, kind, e)
    decreases |extras|
  {
    hide KindOf, Suffix, KeyFor, ManageOne, Parameters;
    if extras != [] {
      assert KindOf(extras[0].name).Some? && !Panics(KindOf(extras[0].name).value, extras[0].parameters);
      var first := KindOf(extras[0].name).value;
      var next := ManageOne(objects, service, replicas, first, extras[0]);
      OneManaged(objects, service, replicas, first, extras[0]);
      KeysDiffer(service, first, kind);
      LastEntryWins(next, service, replicas, extras[1..], kind);
    }
  }

  lemma {:induction false} OthersUntouched(
    objects: Objects, service: string, replicas: nat, extras: seq<ExtraSpec>, key: Key)
    requires forall kind :: key != KeyFor(service, kind)
    ensures SameAt(objects, ManageAll(objects, service, replicas, extras).0, key)
    decreases |extras|
  {
    hide KindOf, KeyFor, Parameters;
    if extras != [] && KindOf(extras[0].name).Some? && !Panics(KindOf(extras[0].name).value, extras[0].parameters) {
      var next := ManageOne(objects, service, replicas, KindOf(extras[0].name).value, extras[0]);
      OthersUntouched(next, service, replicas, extras[1..], key);
    }
  }

  lemma {:induction false} RemovedAt(objects: Objects, service: string, extras: seq<ExtraSpec>, kind: Kind)
    requires Manageable(extras)
    ensures var (after, verdict) := ManageAll(objects, service, 0, extras);
      && verdict == AllManaged
      && if LastOf(extras, kind).Some? then KeyFor(service, kind) !in after
         else SameAt(objects, after, KeyFor(service, kind))
    decreases |extras|
  {
    hide KindOf, Suffix, KeyFor, Parameters;
    if extras != [] {
      assert KindOf(extras[0].name).Some? && !Panics(KindOf(extras[0].name).value, extras[0].parameters);
      var first := KindOf(extras[0].name).value;
      KeysDiffer(service, first, kind);
      RemovedAt(ManageOne(objects, service, 0, first, extras[0]), service, extras[1..], kind);
    }
  }

  lemma SecondRunSame(objects: Objects, service: string, replicas: nat, extras: seq<ExtraSpec>, kind: Kind)
    requires Normal(objects) && Manageable(extras)
    ensures var (after, verdict) := ManageAll(objects, service, replicas, extras);
      var (again, verdict') := ManageAll(after, service, replicas, extras);
      verdict == verdict' == AllManaged && SameAt(after, again, KeyFor(service, kind))
  {
    hide KindOf, Suffix, ManageOne, Manageable, Normal, LastOf, ManageAll, Parameters;
    var after := ManageAll(objects, service, replicas, extras).0;
    if replicas > 0 {
      LastEntryWins(objects, service, replicas, extras, kind);
      LastEntryWins(after, service, replicas, extras, kind);
    } else {
      RemovedAt(objects, service, extras, kind);
      RemovedAt(after, service, extras, kind);
    }
  }

  /** Running the extras again changes nothing, with replicas or without. */
  lemma ExtrasIdempotent(objects: Objects, service: string, replicas: nat, extras: seq<ExtraSpec>)
    requires Normal(objects) && Manageable(extras)
    ensures var after := ManageAll(objects, service, replicas, extras).0;
      ManageAll(after, service, replicas, extras) == (after, AllManaged)
  {
    hide KindOf, KeyFor, ManageOne, Manageable, Normal, ManageAll, Parameters, SameAt;
    var after := ManageAll(objects, service, replicas, extras).0;
    var again := ManageAll(after, service, replicas, extras).0;
    SecondRunSame(objects, service, replicas, extras, Monitoring);
    forall key ensures SameAt(after, again, key) {
      if forall kind :: key != KeyFor(service, kind) {
        OthersUntouched(after, service, replicas, extras, key);
      } else {
        var kind :| key == KeyFor(service, kind);
        SecondRunSame(objects, service, replicas, extras, kind);
      }
    }
    SameEverywhere(after, again);
  }

  lemma SameEverywhere(a: Objects, b: Objects)
    requires forall key :: SameAt(a, b, key)
    ensures a == b
  {
    forall key ensures key in a <==> key in b {
      assert SameAt(a, b, key);
    }
    forall key | key in a ensures a[key] == b[key] {
      assert SameAt(a, b, key);
    }
  }

  /* ---- the next hop: an extra object becomes an Application ---- */

  type ApplicationSpecs = map<string, ApplicationSpec>

  function AppName(kind: Kind): string {
    match kind
    case Monitoring => "automium-monitoring"
    case Backup => "automium-backup"
    case Logging => "automium-logging"
  }

  function AppNamespace(kind: Kind): string {
    if kind == Monitoring then "automium-prometheus" else "kube-system"
  }

  /** The Application spec for an extra object. */
  function SpecFor(kind: Kind, o: ExtraObject): ApplicationSpec {
    ApplicationSpec(AppName(kind), o.version, o.cluster, "System", AppNamespace(kind), o.parameters)
  }

  /** One reconcile of the monitoring, backup or logging controller. */
  function Hop(applications: ApplicationSpecs, objects: Objects, key: Key): ApplicationSpecs {
    if key !in objects then applications
    else applications[key.name + "-app" := SpecFor(key.kind, objects[key])]
  }

  lemma AppNamesAreSafe(kind: Kind)
    ensures Safe(AppName(kind))
  {
  }

  /** The Application that a listed entry leads to. */
  function Intended(service: string, kind: Kind, extra: ExtraSpec): ApplicationSpec
    requires !Panics(kind, extra.parameters)
  {
    SpecFor(kind, ExtraObject(service, extra.version, AsStored(Parameters(kind, service, extra.parameters))))
  }

  /** The whole chain: after the extras of a Service and the next hop, the Application of a
      listed kind is a function of the last entry of that kind alone, and running both
      again changes nothing. */
  lemma ChainFollowsLastEntry(
    objects: Objects, applications: ApplicationSpecs, service: string, replicas: nat, extras: seq<ExtraSpec>,
      kind: Kind)
    requires Normal(objects) && Manageable(extras) && replicas > 0 && LastOf(extras, kind).Some?
    requires KeyFor(service, kind) in objects ==> objects[KeyFor(service, kind)].cluster == service
    ensures !Panics(kind, LastOf(extras, kind).value.parameters)
    ensures var key := KeyFor(service, kind);
      var after := ManageAll(objects, service, replicas, extras).0;
      var apps := Hop(applications, after, key);
      && apps == applications[key.name + "-app" := Intended(service, kind, LastOf(extras, kind).value)]
      && Hop(apps, ManageAll(after, service, replicas, extras).0, key) == apps
  {
    hide KindOf, Suffix, ManageOne, Manageable, Normal, LastOf, ManageAll, Parameters, AppName, AppNamespace;
    LastEntryWins(objects, service, replicas, extras, kind);
    ExtrasIdempotent(objects, service, replicas, extras);
  }

  /* ---- the chain, by the entries of the Service ---- */

  /** The extras that exist, and the one whose parameters must not be missing. */
  lemma KnownExtras(extra: ExtraSpec)
    ensures KindOf(extra.name).Some? <==> extra.name in {"monitoring", "backup", "logging"}
    ensures KindOf(extra.name).Some? ==>
      (Panics(KindOf(extra.name).value, extra.parameters) <==> extra.name == "logging" && extra.parameters == None)
  {
    assert |"backup"| != |"logging"| && |"monitoring"| != |"logging"| && |"monitoring"| != |"backup"|;
  }

  /** Where an extra is stored, and what Application it leads to. */
  lemma EntryMeans(service: string, kind: Kind, extra: ExtraSpec)
    requires KindOf(extra.name) == Some(kind) && !Panics(kind, extra.parameters)
    ensures KeyFor(service, kind) == Key(kind, service + ("-" + extra.name))
    ensures var spec := Intended(service, kind, extra);
      && spec.name == "automium-" + extra.name && spec.version == extra.version
      && spec.cluster == service && spec.project == "System"
      && spec.targetNamespace == (if extra.name == "monitoring" then "automium-prometheus" else "kube-system")
      && (extra.name == "logging" ==>
            extra.parameters.Some? && spec.parameters == Some(extra.parameters.value["clusterName" := service]))
      && (extra.name != "logging" ==>
            if extra.parameters == Some(map[]) then spec.parameters == None else spec.parameters == extra.parameters)
  {
    assert |"backup"| != |"logging"| && |"monitoring"| != |"logging"| && |"monitoring"| != |"backup"|;
    if kind == Logging {
      assert extra.parameters.value["clusterName" := service] != map[] by {
        assert "clusterName" in extra.parameters.value["clusterName" := service];
      }
    }
    assert "-" + "monitoring" == "-monitoring" && "-" + "backup" == "-backup" && "-" + "logging" == "-logging";
    assert "automium-" + "monitoring" == "automium-monitoring" && "automium-" + "backup" == "automium-backup"
      && "automium-" + "logging" == "automium-logging";
  }

  lemma {:induction false} LastOfIs(extras: seq<ExtraSpec>, kind: Kind, i: nat)
    requires i < |extras| && KindOf(extras[i].name) == Some(kind)
    requires forall j | i < j < |extras| :: extras[j].name != extras[i].name
    ensures LastOf(extras, kind) == Some(extras[i])
  {
    hide KindOf;
    if i > 0 {
      LastOfIs(extras[1..], kind, i - 1);
    } else {
      forall j | 0 < j < |extras| ensures KindOf(extras[j].name) != Some(kind) {
        if KindOf(extras[j].name) == Some(kind) {
          SameKindSameName(extras[j].name, extras[0].name);
        }
      }
      LastOfNone(extras[1..], kind);
    }
  }

  lemma SameKindSameName(a: string, b: string)
    requires KindOf(a) == KindOf(b) && KindOf(a).Some?
    ensures a == b
  {
  }

  lemma {:induction false} LastOfNone(extras: seq<ExtraSpec>, kind: Kind)
    requires forall j | 0 <= j < |extras| :: KindOf(extras[j].name) != Some(kind)
    ensures LastOf(extras, kind) == None
  {
    hide KindOf;
    if extras != [] {
      LastOfNone(extras[1..], kind);
    }
  }

  /** Of several entries of one name the last arrives: after the extras of a Service and the
      next hop, the Application of this extra carries its version and parameters, logging
      with the service as its cluster name. */
  lemma ListedExtraArrives(
    objects: Objects, applications: ApplicationSpecs, service: string, replicas: nat, extras: seq<ExtraSpec>, i: nat)
    requires Normal(objects) && Manageable(extras) && replicas > 0 && i < |extras|
    requires forall j | i < j < |extras| :: extras[j].name != extras[i].name
    requires forall key | key in objects && key.name == service + ("-" + extras[i].name) ::
      objects[key].cluster == service
    ensures KindOf(extras[i].name).Some?
    ensures var e, key := extras[i], Key(KindOf(extras[i].name).value, service + ("-" + extras[i].name));
      var apps := Hop(applications, ManageAll(objects, service, replicas, extras).0, key);
      key.name + "-app" in apps && var spec := apps[key.name + "-app"];
      && spec.name == "automium-" + e.name && spec.version == e.version && spec.cluster == service
      && (e.name == "logging" ==>
            e.parameters.Some? && spec.parameters == Some(e.parameters.value["clusterName" := service]))
      && (e.name != "logging" ==>
            if e.parameters == Some(map[]) then spec.parameters == None else spec.parameters == e.parameters)
  {
    hide KindOf, ManageAll, Normal, LastOf, Hop, Intended, Suffix, KeyFor;
    assert extras[i] == extras[i];
    var kind := KindOf(extras[i].name).value;
    LastOfIs(extras, kind, i);
    EntryMeans(service, kind, extras[i]);
    ChainFollowsLastEntry(objects, applications, service, replicas, extras, kind);
  }

  /** And once Rancher has accepted that Application and reports it back, the application
      controller has nothing to deploy exactly when the entry's version is plain; it refuses
      every Application of the project when the version cannot be parsed; and otherwise it
      posts the same again, on a project ID with a colon. */
  lemma ChainComesToRestIff(
    service: string, kind: Kind, extra: ExtraSpec, s: Settings, w: Replies, w': Replies, i: nat)
    requires !Panics(kind, extra.parameters)
    requires var r := ReconcileApp(Intended(service, kind, extra), s, w);
      r.1 == Deployed && |r.0| == 1 && Reports(w', r.0[0], i)
    requires ProjectOf(Intended(service, kind, extra), w').Some?
    ensures var spec := Intended(service, kind, extra);
      var projectId, r := ProjectOf(spec, w').value, ReconcileApp(spec, s, w');
      && (r == ([], UpToDate) <==> Safe(extra.version))
      && (!UrlParses(extra.version) ==> forall other, t :: ReconcileApp(other, t, w') == ([], Refused))
      && (UrlParses(extra.version) && !Safe(extra.version) ==>
            AnswersFor(spec, s).Some? &&
            if HasColon(projectId) then r.0 == [PostFor(spec, projectId, AnswersFor(spec, s).value, false)]
            else r == ([], Crashed))
  {
    hide AppName, AppNamespace, Parameters, Safe, ReconcileApp, Reports, UrlParses, Tail, NameOk, HasColon, AnswersFor;
    AppNamesAreSafe(kind);
    SafeNameOk(AppName(kind));
    PlainNameParses(AppName(kind), extra.version) by { SafeIsPlainUrl(AppName(kind)); }
    DeployedIsUpToDateIff(Intended(service, kind, extra), s, w, w', i);
  }

  /* ---- the controllers ---- */

  class ExtrasServer {
    var objects: Objects
    var applications: ApplicationSpecs

    constructor ()
      ensures objects == map[] && applications == map[]
    {
      objects, applications := map[], map[];
    }

    method ManageExtra(service: string, replicas: nat, kind: Kind, extra: ExtraSpec)
      requires !Panics(kind, extra.parameters)
      modifies this`objects
      ensures objects == ManageOne(old(objects), service, replicas, kind, extra)
    {
      hide Suffix;
      var parameters := extra.parameters;
      if kind == Logging {
        parameters := Some(parameters.value["clusterName" := service]);
      }
      var key := KeyFor(service, kind);
      if replicas == 0 {
        objects := objects - {key};
        return;
      }
      if key !in objects {
        objects := objects[key := ExtraObject(service, extra.version, AsStored(parameters))];
        return;
      }
      var found := objects[key];
      if found.version != extra.version || found.parameters != parameters {
        objects := objects[key := found.(version := extra.version, parameters := AsStored(parameters))];
      }
    }

    method ManageExtras(service: string, replicas: nat, extras: seq<ExtraSpec>) returns (verdict: Managed)
      modifies this`objects
      ensures (objects, verdict) == ManageAll(old(objects), service, replicas, extras)
    {
      hide KeyFor, Parameters, ManageOne;
      var i := 0;
      while i < |extras|
        invariant 0 <= i <= |extras|
        invariant ManageAll(old(objects), service, replicas, extras)
          == ManageAll(objects, service, replicas, extras[i..])
      {
        var kind := KindOf(extras[i].name);
        assert extras[i..][0] == extras[i] && extras[i..][1..] == extras[i + 1..];
        if kind.None? {
          return UnknownExtra(extras[i].name);
        }
        if Panics(kind.value, extras[i].parameters) {
          return NilParameters;
        }
        ManageExtra(service, replicas, kind.value, extras[i]);
        i := i + 1;
      }
      return AllManaged;
    }

    /** The reconcile of the monitoring, backup and logging controllers. */
    method ReconcileExtra(key: Key)
      modifies this`applications
      ensures applications == Hop(old(applications), objects, key)
    {
      hide AppName, AppNamespace;
      if key !in objects {
        return;
      }
      var desired := SpecFor(key.kind, objects[key]);
      var name := key.name + "-app";
      if name !in applications || applications[name] != desired {
        applications := applications[name := desired];
      }
      assert applications == old(applications)[name := desired];
    }
  }
}

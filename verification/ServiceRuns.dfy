/** From the Service to its Module and on to the hostnames. */
module ServiceRuns {
  import opened Wrappers
  import opened Model
  import opened EnvVars
  import opened ServiceEnv
  import opened ModuleLogic
  import opened Protocol

  predicate ModuleStored(st: State, service: Service) {
    ModuleName(service.name) in st.modules
  }

  /** The service reconcile issues an Update of the stored Module. */
  predicate Rewrites(st: State, service: Service, platform: string) {
    ModuleStored(st, service) && !SpecAgree(st.modules[ModuleName(service.name)].spec, BuiltSpec(service, platform))
  }

  /** After a reconcile that created or rewrote the Module, the next one rewrites it again
      exactly when the built environment gives one name two values; after one that left
      the Module alone the next one leaves it alone too. */
  lemma ServiceSettlesIff(st: State, name: string, platform: string)
    requires WellFormed(st) && name in st.services
    ensures var service, st1 := st.services[name], ReconcileService(st, name, platform).0;
      && ModuleStored(st1, service) && name in st1.services && st1.services[name].spec == service.spec
      && (!ModuleStored(st, service) || Rewrites(st, service, platform) ==>
            st1.modules[ModuleName(name)].spec == BuiltSpec(service, platform)
            && (Rewrites(st1, st1.services[name], platform) <==> !ConflictFree(BuiltEnv(service, platform))))
      && (ModuleStored(st, service) && !Rewrites(st, service, platform) ==>
            st1.modules == st.modules && !Rewrites(st1, st1.services[name], platform))
  {
    hide WellFormed, CommonEnv, SpecificEnv, EnvAgree, ConflictFree, Provisioner;
    NamedByKey(st, name);
    var service := st.services[name];
    EqualReflexiveIff(BuiltEnv(service, platform));
    StatusIsNotBuilt(service, ReconcileService(st, name, platform).0.services[name], platform);
  }

  lemma NamedByKey(st: State, name: string)
    requires WellFormed(st) && name in st.services
    ensures st.services[name].name == name
  {
  }

  lemma StatusIsNotBuilt(a: Service, b: Service, platform: string)
    requires b == a.(status := b.status)
    ensures BuiltSpec(a, platform) == BuiltSpec(b, platform)
  {
  }

  /** The hostnames of a cluster service start with a non-empty cluster name: the one the
      user gave, or else the service name. */
  lemma ClusterHostnames(service: Service, platform: string)
    requires service.app == "kubernetes-cluster" && service.name != ""
    requires AtMostOneClusterName(service.spec.env)
    ensures exists cluster ::
      && cluster != "" && HostStem(DesiredModule(service, platform)) == Some(cluster + "-" + service.name)
      && (cluster == service.name
          || exists v :: v in service.spec.env && ToUpper(v.name) == CLUSTER_NAME && cluster == v.value)
  {
    hide BuiltEnv, ToUpper;
    ClusterNameAgrees(service, platform);
    var cluster := LastValue(BuiltEnv(service, platform), CLUSTER_NAME, service.name);
    assert HostStem(DesiredModule(service, platform)) == Some(cluster + "-" + service.name);
    if cluster != service.name {
      var v :| v in service.spec.env && ToUpper(v.name) == CLUSTER_NAME && v.value != "";
    }
  }

  /* ---- an edit of the Service reaches its Module ---- */

  predicate IsKubernetes(app: string) {
    app in {"kubernetes-cluster", "kubernetes-nodepool"}
  }

  lemma {:induction false} SeenValue(env: Env, name: string) returns (i: nat)
    requires name in AsMap(env)
    ensures i < |env| && env[i].name == name && env[i].value == AsMap(env)[name]
  {
    var k := |env| - 1;
    if env[k].name == name {
      i := k;
    } else {
      i := SeenValue(env[..k], name);
    }
  }

  lemma AgreeSeesSame(a: Env, b: Env)
    requires EnvAgree(a, b)
    ensures forall name | name in AsMap(a) && name in AsMap(b) :: AsMap(a)[name] == AsMap(b)[name]
  {
    hide AsMap;
    forall name | name in AsMap(a) && name in AsMap(b) ensures AsMap(a)[name] == AsMap(b)[name] {
      var i := SeenValue(a, name);
      var j := SeenValue(b, name);
    }
  }

  lemma ImageBuilt(service: Service, platform: string)
    ensures var spec := BuiltSpec(service, platform);
      && spec.replicas == service.spec.replicas && spec.flavor == service.spec.flavor
      && (IsKubernetes(service.app) ==>
            spec.source == "kubernetes" && spec.image == "kubernetes-" + service.spec.version)
      && (!IsKubernetes(service.app) ==>
            spec.source == service.app && spec.image == service.app + "-" + service.spec.version)
  {
    hide BuiltEnv;
    assert "kubernetes" + "-" == "kubernetes-";
  }

  /** Whatever was stored before, after a service reconcile the Module asks for what the
      Service asks for: replicas, flavor, the image of the version; and a process that
      reads a variable known to the environment built from the Service reads the value
      built. */
  lemma EditReachesModule(st: State, name: string, platform: string)
    requires WellFormed(st) && name in st.services
    ensures var service, st' := st.services[name], ReconcileService(st, name, platform).0;
      && name + "-module" in st'.modules
      && var spec, built := st'.modules[name + "-module"].spec, BuiltEnv(service, platform);
         && spec.replicas == service.spec.replicas && spec.flavor == service.spec.flavor
         && (IsKubernetes(service.app) ==> spec.image == "kubernetes-" + service.spec.version)
         && (!IsKubernetes(service.app) ==> spec.image == service.app + "-" + service.spec.version)
         && |spec.env| == |built|
         && forall x | x in AsMap(spec.env) && x in AsMap(built) :: AsMap(spec.env)[x] == AsMap(built)[x]
  {
    hide WellFormed, CommonEnv, SpecificEnv, AsMap, Provisioner;
    NamedByKey(st, name);
    var service, st' := st.services[name], ReconcileService(st, name, platform).0;
    ImageBuilt(service, platform);
    var key := name + "-module";
    if key in st.modules && SpecAgree(st.modules[key].spec, BuiltSpec(service, platform)) {
      AgreeSeesSame(st.modules[key].spec.env, BuiltEnv(service, platform));
    }
  }

  /** What a service reconcile writes besides: a new Module knows its service and its
      application; an old one keeps everything but its spec; and no other object changes. */
  lemma ServiceStepWrites(st: State, name: string, platform: string)
    requires WellFormed(st) && name in st.services
    ensures var service, key := st.services[name], name + "-module";
      var (st', outcome) := ReconcileService(st, name, platform);
      && key in st'.modules && name in st'.services
      && st'.modules - {key} == st.modules - {key} && st'.services - {name} == st.services - {name}
      && st'.jobs == st.jobs && st'.nodes == st.nodes
      && st'.services[name].spec == service.spec
      && (key in st.modules ==> st'.modules[key] == st.modules[key].(spec := st'.modules[key].spec))
      && (key !in st.modules ==>
            st'.modules[key].name == key && st'.modules[key].service == name && st'.modules[key].app == service.app
            && st'.services == st.services && outcome == ModuleCreated)
  {
    hide BuiltSpec, SpecAgree;
    NamedByKey(st, name);
  }

  /** The Service takes over the phase of its Module, and only then its name; it is looked
      at again soon while the Module is at work, and its extras are due exactly when a
      cluster is complete. */
  lemma PhaseIsCopied(st: State, name: string, platform: string)
    requires WellFormed(st) && name in st.services && name + "-module" in st.modules
    ensures var (st', outcome) := ReconcileService(st, name, platform);
      var service, found := st.services[name], st.modules[name + "-module"];
      && name in st'.services && st'.services[name].status.phase == found.status.phase
      && (service.status.phase != found.status.phase ==>
            st'.services[name].status.moduleRef == name + "-module")
      && (service.status.phase == found.status.phase ==> st'.services == st.services)
      && (outcome == Requeued <==> found.status.phase == Pending || found.status.phase == Running)
      && (outcome == Extras <==> found.status.phase == Completed && service.app == "kubernetes-cluster")
  {
    hide BuiltSpec, SpecAgree;
    NamedByKey(st, name);
    ModuleNamed(st, name + "-module");
    assert st.services[name := st.services[name].(status := st.services[name].status)] == st.services;
  }

  lemma ModuleNamed(st: State, key: string)
    requires WellFormed(st) && key in st.modules
    ensures st.modules[key].name == key
  {
  }

  /* ---- what the built environment says ---- */

  lemma {:induction false} AsMapAppend(a: Env, b: Env)
    ensures AsMap(a + b) == AsMap(a) + AsMap(b)
  {
    if b == [] {
      assert a + b == a;
    } else {
      var k := |b| - 1;
      assert (a + b)[..|a + b| - 1] == a + b[..k];
      AsMapAppend(a, b[..k]);
    }
  }

  lemma AsMapOfThree(x: EnvVar, y: EnvVar, z: EnvVar)
    ensures AsMap([x, y]) == map[x.name := x.value][y.name := y.value]
    ensures AsMap([x, y, z]) == map[x.name := x.value][y.name := y.value][z.name := z.value]
    ensures AsMap([x]) == map[x.name := x.value] && AsMap([]) == map[]
  {
    assert [x][..0] == [] && [x, y][..1] == [x] && [x, y, z][..2] == [x, y];
    assert AsMap([x]) == AsMap([])[x.name := x.value];
    assert AsMap([x, y]) == AsMap([x])[y.name := y.value];
    assert AsMap([x, y, z]) == AsMap([x, y])[z.name := z.value];
  }

  /** The user's variables in upper case, and over them name, provider and, for Kubernetes,
      the roles; a cluster without a name of its own gets that of its service. */
  lemma BuiltEnvTells(service: Service, platform: string)
    ensures var told, user := AsMap(BuiltEnv(service, platform)), AsMap(UserEnv(service.spec.env));
      && "NAME" in told && "PROVIDER" in told && told["NAME"] == service.name
      && (platform in {"vcd", "vsphere", "aws"} ==> told["PROVIDER"] == platform)
      && (platform !in {"vcd", "vsphere", "aws"} ==> told["PROVIDER"] == "openstack")
      && (IsKubernetes(service.app) ==> "MASTER" in told && "NODE" in told && "ETCD" in told)
      && (service.app == "kubernetes-cluster" ==>
            told["MASTER"] == told["ETCD"] == "true" && told["NODE"] == "false" && "CLUSTER_NAME" in told)
      && (service.app == "kubernetes-nodepool" ==>
            told["MASTER"] == told["ETCD"] == "false" && told["NODE"] == "true")
      && var fixedNames := {"NAME", "PROVIDER", "CLUSTER_NAME"}
           + if IsKubernetes(service.app) then {"MASTER", "NODE", "ETCD"} else {};
         told - fixedNames == user - fixedNames
  {
    hide AsMap, UserEnv;
    var user := UserEnv(service.spec.env);
    var fixedVars := [EnvVar("PROVIDER", CloudPlatform(platform)), EnvVar("NAME", service.name)];
    var common := CommonEnv(service, platform);
    var specific := SpecificEnv(service, common);
    AsMapAppend(user, fixedVars);
    AsMapAppend(common, specific);
    AsMapOfThree(fixedVars[0], fixedVars[1], fixedVars[1]);
    assert fixedVars == [fixedVars[0], fixedVars[1]];
    var over := AsMap(fixedVars);
    assert over == map["PROVIDER" := CloudPlatform(platform), "NAME" := service.name] by { NamesApart(); }
    SpecificTells(service, common);
    NamesApart();
    SeenIn(common);
    var told, roles := AsMap(BuiltEnv(service, platform)), AsMap(specific);
    assert BuiltEnv(service, platform) == common + specific;
    assert told == AsMap(user) + over + roles;
  }

  lemma NamesApart()
    ensures "NAME" !in {"PROVIDER", "MASTER", "NODE", "ETCD", "CLUSTER_NAME"}
    ensures "PROVIDER" !in {"MASTER", "NODE", "ETCD", "CLUSTER_NAME"}
    ensures "MASTER" !in {"NODE", "ETCD", "CLUSTER_NAME"} && "NODE" !in {"ETCD", "CLUSTER_NAME"}
    ensures "ETCD" != "CLUSTER_NAME"
  {
    assert "NAME"[1] != "NODE"[1] && "NAME"[0] != "ETCD"[0] && "NODE"[0] != "ETCD"[0];
  }

  lemma {:induction false} SeenIn(env: Env)
    ensures forall i | 0 <= i < |env| :: env[i].name in AsMap(env)
  {
    if env != [] {
      SeenIn(env[..|env| - 1]);
    }
  }

  lemma SpecificTells(service: Service, common: Env)
    ensures var told := AsMap(SpecificEnv(service, common));
      && (!IsKubernetes(service.app) ==> told == map[])
      && (service.app == "kubernetes-nodepool" ==>
            told == map["MASTER" := "false", "NODE" := "true", "ETCD" := "false"])
      && (service.app == "kubernetes-cluster" ==>
            "MASTER" in told && "NODE" in told && "ETCD" in told
            && told.Keys <= {"MASTER", "NODE", "ETCD", "CLUSTER_NAME"}
            && told["MASTER"] == told["ETCD"] == "true" && told["NODE"] == "false"
            && ("CLUSTER_NAME" in told || HasClusterName(common)))
  {
    hide AsMap, HasClusterName;
    NamesApart();
    var roles := if service.app == "kubernetes-cluster" then RoleEnv("true", "false", "true")
      else RoleEnv("false", "true", "false");
    AsMapOfThree(roles[0], roles[1], roles[2]);
    var own := [EnvVar("CLUSTER_NAME", service.name)];
    AsMapOfThree(own[0], own[0], own[0]);
    AsMapAppend(roles, own);
    assert roles + [] == roles;
    assert "kubernetes-cluster"[11] != "kubernetes-nodepool"[11];
  }

  /** Names are upper-cased letter by letter, values kept. */
  lemma UserEnvMeans(env: Env, i: nat)
    requires i < |env|
    ensures var v := UserEnv(env)[i];
      && v.value == env[i].value && |v.name| == |env[i].name|
      && forall k | 0 <= k < |v.name| ::
           var c := env[i].name[k];
           v.name[k] == if 'a' <= c <= 'z' then c - ('a' - 'A') else c
  {
  }
}

/** pkg/controller/service/service_controller.go: the Module spec built from a Service. */
module ServiceEnv {
  import opened Model
  import opened EnvVars

  datatype ServiceSpec = ServiceSpec(
    replicas: nat, flavor: string, version: string, env: Env)

  datatype ServiceStatus = ServiceStatus(phase: Phase, moduleRef: string)

  /** `app` is the label "app". */
  datatype Service = Service(name: string, app: string, spec: ServiceSpec, status: ServiceStatus)

  const CLUSTER_NAME := "CLUSTER_NAME"

  function UpperChar(c: char): char {
    if 'a' <= c <= 'z' then c - 'a' + 'A' else c
  }

  /** strings.ToUpper on ASCII text. */
  function ToUpper(s: string): (r: string)
    ensures |r| == |s|
  {
    seq(|s|, i requires 0 <= i < |s| => UpperChar(s[i]))
  }

  function UserEnv(env: Env): (r: Env)
    ensures |r| == |env|
  {
    seq(|env|, i requires 0 <= i < |env| => EnvVar(ToUpper(env[i].name), env[i].value))
  }

  /** The default is openstack. */
  function CloudPlatform(platform: string): string {
    if platform == "vcd" || platform == "vsphere" || platform == "aws" then platform else "openstack"
  }

  function CommonEnv(service: Service, platform: string): Env {
    UserEnv(service.spec.env) + [EnvVar("PROVIDER", CloudPlatform(platform)), EnvVar("NAME", service.name)]
  }

  predicate HasClusterName(env: Env) {
    exists i :: 0 <= i < |env| && env[i].name == CLUSTER_NAME && env[i].value != ""
  }

  function RoleEnv(master: string, node: string, etcd: string): Env {
    [EnvVar("MASTER", master), EnvVar("NODE", node), EnvVar("ETCD", etcd)]
  }

  function SpecificEnv(service: Service, common: Env): Env {
    if service.app == "kubernetes-cluster" then
      RoleEnv("true", "false", "true") + if HasClusterName(common) then [] else [EnvVar(CLUSTER_NAME, service.name)]
    else if service.app == "kubernetes-nodepool" then RoleEnv("false", "true", "false")
    else []
  }

  function Provisioner(app: string): string {
    if app == "kubernetes-cluster" || app == "kubernetes-nodepool" then "kubernetes" else app
  }

  function BuiltEnv(service: Service, platform: string): Env {
    var common := CommonEnv(service, platform);
    common + SpecificEnv(service, common)
  }

  function BuiltSpec(service: Service, platform: string): ModuleSpec {
    var provisioner := Provisioner(service.app);
    ModuleSpec(provisioner, provisioner + "-" + service.spec.version, service.spec.replicas,
      service.spec.flavor, BuiltEnv(service, platform))
  }

  /** The loops and appends of the reconcile, in their order. */
  method BuildEnv(service: Service, platform: string) returns (tfEnvVars: Env, appProvisioner: string)
    ensures tfEnvVars == BuiltEnv(service, platform)
    ensures appProvisioner == Provisioner(service.app)
  {
    tfEnvVars := [];
    for i := 0 to |service.spec.env|
      invariant tfEnvVars == UserEnv(service.spec.env)[..i]
    {
      tfEnvVars := tfEnvVars + [EnvVar(ToUpper(service.spec.env[i].name), service.spec.env[i].value)];
    }
    assert tfEnvVars == UserEnv(service.spec.env);
    tfEnvVars := tfEnvVars + [EnvVar("PROVIDER", CloudPlatform(platform)), EnvVar("NAME", service.name)];
    var specificEnvVars: Env := [];
    if service.app == "kubernetes-cluster" {
      specificEnvVars := RoleEnv("true", "false", "true");
      var customClusterNameFound := false;
      for i := 0 to |tfEnvVars|
        invariant customClusterNameFound <==> HasClusterName(tfEnvVars[..i])
      {
        if tfEnvVars[i].name == CLUSTER_NAME && tfEnvVars[i].value != "" {
          customClusterNameFound := true;
          assert tfEnvVars[..i + 1][i] == tfEnvVars[i];
          assert HasClusterName(tfEnvVars);
          break;
        }
        assert tfEnvVars[..i + 1] == tfEnvVars[..i] + [tfEnvVars[i]];
      }
      assert tfEnvVars[..|tfEnvVars|] == tfEnvVars;
      if !customClusterNameFound {
        specificEnvVars := specificEnvVars + [EnvVar(CLUSTER_NAME, service.name)];
      }
      appProvisioner := "kubernetes";
    } else if service.app == "kubernetes-nodepool" {
      specificEnvVars := RoleEnv("false", "true", "false");
      appProvisioner := "kubernetes";
    } else {
      appProvisioner := service.app;
    }
    tfEnvVars := tfEnvVars + specificEnvVars;
  }

  /* ---- the cluster name, end to end ---- */

  /** The search of the module controller: the last match wins. */
  function LastValue(env: Env, name: string, default: string): string {
    if env == [] then default
    else if env[|env| - 1].name == name then env[|env| - 1].value
    else LastValue(env[..|env| - 1], name, default)
  }

  lemma {:induction false} LastValueAppend(a: Env, b: Env, name: string, default: string)
    ensures LastValue(a + b, name, default) == LastValue(b, name, LastValue(a, name, default))
  {
    if b == [] {
      assert a + b == a;
    } else {
      assert (a + b)[..|a + b| - 1] == a + b[..|b| - 1];
      LastValueAppend(a, b[..|b| - 1], name, default);
    }
  }

  lemma {:induction false} LastValueAbsent(env: Env, name: string, default: string)
    requires forall i | 0 <= i < |env| :: env[i].name != name
    ensures LastValue(env, name, default) == default
  {
    if env != [] {
      LastValueAbsent(env[..|env| - 1], name, default);
    }
  }

  /** For a cluster service the module controller derives the service name when the user
      gave no non-empty CLUSTER_NAME, and otherwise the last value the user gave. */
  lemma ClusterNameDerived(service: Service, platform: string)
    requires service.app == "kubernetes-cluster"
    ensures LastValue(BuiltEnv(service, platform), CLUSTER_NAME, service.name) ==
      if HasClusterName(UserEnv(service.spec.env))
      then LastValue(UserEnv(service.spec.env), CLUSTER_NAME, "")
      else service.name
  {
    var user := UserEnv(service.spec.env);
    var fixedVars := [EnvVar("PROVIDER", CloudPlatform(platform)), EnvVar("NAME", service.name)];
    var common := user + fixedVars;
    var roles := RoleEnv("true", "false", "true");
    assert "PROVIDER" != CLUSTER_NAME && "NAME" != CLUSTER_NAME && "MASTER" != CLUSTER_NAME
        && "NODE" != CLUSTER_NAME && "ETCD" != CLUSTER_NAME;
    assert HasClusterName(common) <==> HasClusterName(user) by {
      assert forall i | 0 <= i < |user| :: common[i] == user[i];
      assert forall i | |user| <= i < |common| :: common[i] == fixedVars[i - |user|];
    }
    LastValueAppend(user, fixedVars, CLUSTER_NAME, service.name);
    LastValueAbsent(fixedVars, CLUSTER_NAME, LastValue(user, CLUSTER_NAME, service.name));
    LastValueAppend(common, roles, CLUSTER_NAME, service.name);
    LastValueAbsent(roles, CLUSTER_NAME, LastValue(common, CLUSTER_NAME, service.name));
    if HasClusterName(user) {
      assert BuiltEnv(service, platform) == common + (roles + []) == common + roles;
      DefaultUnused(user, CLUSTER_NAME, service.name, "");
    } else {
      var own := [EnvVar(CLUSTER_NAME, service.name)];
      assert BuiltEnv(service, platform) == common + (roles + own) == (common + roles) + own;
      LastValueAppend(common + roles, own, CLUSTER_NAME, service.name);
    }
  }

  lemma {:induction false} DefaultUnused(env: Env, name: string, d: string, e: string)
    requires exists i :: 0 <= i < |env| && env[i].name == name
    ensures LastValue(env, name, d) == LastValue(env, name, e)
  {
    if env[|env| - 1].name != name {
      var i :| 0 <= i < |env| && env[i].name == name;
      assert env[..|env| - 1][i].name == name;
      DefaultUnused(env[..|env| - 1], name, d, e);
    }
  }

  /** At most one user variable turns into CLUSTER_NAME. */
  predicate AtMostOneClusterName(env: Env) {
    forall i, j | 0 <= i < j < |env| :: !(ToUpper(env[i].name) == CLUSTER_NAME && ToUpper(env[j].name) == CLUSTER_NAME)
  }

  lemma {:induction false} LastOfUnique(env: Env, i: nat)
    requires i < |env| && env[i].name == CLUSTER_NAME
    requires forall j | 0 <= j < |env| && env[j].name == CLUSTER_NAME :: j == i
    ensures LastValue(env, CLUSTER_NAME, "") == env[i].value
  {
    if i < |env| - 1 {
      LastOfUnique(env[..|env| - 1], i);
    }
  }

  /** Then the derived name is that variable's non-empty value, or else the service name,
      and never empty. */
  lemma ClusterNameAgrees(service: Service, platform: string)
    requires service.app == "kubernetes-cluster" && service.name != ""
    requires AtMostOneClusterName(service.spec.env)
    ensures var name := LastValue(BuiltEnv(service, platform), CLUSTER_NAME, service.name);
      && name != ""
      && (forall v | v in service.spec.env && ToUpper(v.name) == CLUSTER_NAME && v.value != "" :: name == v.value)
      && ((forall v | v in service.spec.env && ToUpper(v.name) == CLUSTER_NAME :: v.value == "") ==>
        name == service.name)
  {
    ClusterNameDerived(service, platform);
    var user := UserEnv(service.spec.env);
    if HasClusterName(user) {
      var i :| 0 <= i < |user| && user[i].name == CLUSTER_NAME && user[i].value != "";
      LastOfUnique(user, i);
      assert service.spec.env[i] in service.spec.env;
    }
    forall v | v in service.spec.env && ToUpper(v.name) == CLUSTER_NAME && v.value != ""
      ensures HasClusterName(user)
    {
      var i :| 0 <= i < |user| && service.spec.env[i] == v;
      assert user[i].name == CLUSTER_NAME && user[i].value != "";
    }
  }

  /** Without that premise the derived name is empty exactly when the user gave a
      non-empty CLUSTER_NAME and then an empty one. */
  lemma ClusterNameEmptyIff(service: Service, platform: string)
    requires service.app == "kubernetes-cluster" && service.name != ""
    ensures LastValue(BuiltEnv(service, platform), CLUSTER_NAME, service.name) == "" <==>
      HasClusterName(UserEnv(service.spec.env)) && LastValue(UserEnv(service.spec.env), CLUSTER_NAME, "") == ""
  {
    ClusterNameDerived(service, platform);
  }
}

/** pkg/utils/module.go: when the service controller believes that a stored Module is
    up to date. */
module EnvVars {
  import opened Model

  type Env = seq<EnvVar>

  /** What EqualEnvVars decides: the lengths agree and no shared name differs in value. */
  predicate EnvAgree(a: Env, b: Env) {
    |a| == |b| &&
    forall i, j | 0 <= i < |a| && 0 <= j < |b| && a[i].name == b[j].name :: a[i].value == b[j].value
  }

  method EqualEnvVars(oldVars: Env, newVars: Env) returns (equal: bool)
    ensures equal <==> EnvAgree(oldVars, newVars)
  {
    if |oldVars| != |newVars| {
      return false;
    }
    for i := 0 to |oldVars|
      invariant forall p, q | 0 <= p < i && 0 <= q < |newVars| && oldVars[p].name == newVars[q].name ::
        oldVars[p].value == newVars[q].value
    {
      for j := 0 to |newVars|
        invariant forall q | 0 <= q < j && oldVars[i].name == newVars[q].name :: oldVars[i].value == newVars[q].value
      {
        if oldVars[i].name == newVars[j].name && oldVars[i].value != newVars[j].value {
          return false;
        }
      }
    }
    return true;
  }

  predicate SpecAgree(a: ModuleSpec, b: ModuleSpec) {
    a.flavor == b.flavor && a.image == b.image && a.replicas == b.replicas && EnvAgree(a.env, b.env)
  }

  method IsModuleDifferent(actual: Module, desired: Module) returns (different: bool)
    ensures different <==> !SpecAgree(actual.spec, desired.spec)
  {
    var envEqual := EqualEnvVars(actual.spec.env, desired.spec.env);
    different := !(actual.spec.flavor == desired.spec.flavor && actual.spec.image == desired.spec.image
                   && actual.spec.replicas == desired.spec.replicas && envEqual);
  }

  /* ---- what the comparison means ---- */

  ghost function NamesOf(env: Env): set<string> {
    set v | v in env :: v.name
  }

  ghost function ValuesOf(env: Env, name: string): set<string> {
    set v | v in env && v.name == name :: v.value
  }

  predicate NamedOnce(env: Env) {
    forall i, j | 0 <= i < j < |env| :: env[i].name != env[j].name
  }

  /** No name occurs with two different values. */
  predicate ConflictFree(env: Env) {
    forall i, j | 0 <= i < |env| && 0 <= j < |env| && env[i].name == env[j].name :: env[i].value == env[j].value
  }

  /** The environment a process would see. */
  function AsMap(env: Env): map<string, string> {
    if env == [] then map[] else AsMap(env[..|env| - 1])[env[|env| - 1].name := env[|env| - 1].value]
  }

  lemma OneMoreName(env: Env)
    requires NamedOnce(env) && env != []
    ensures var k := |env| - 1;
      && NamedOnce(env[..k]) && env[k].name !in NamesOf(env[..k])
      && NamesOf(env) == NamesOf(env[..k]) + {env[k].name}
      && forall v | v in env :: v in env[..k] || v == env[k]
  {
    var k := |env| - 1;
    assert env == env[..k] + [env[k]];
  }

  lemma {:induction false} AsMapLooksUp(env: Env)
    requires NamedOnce(env)
    ensures AsMap(env).Keys == NamesOf(env) && |NamesOf(env)| == |env|
    ensures forall v | v in env :: v.name in AsMap(env) && AsMap(env)[v.name] == v.value
  {
    hide NamedOnce;
    if env != [] {
      OneMoreName(env);
      AsMapLooksUp(env[..|env| - 1]);
    }
  }

  /** With unique names the process environments are equal exactly when EqualEnvVars says
      so and the names are the same; the comparison itself never looks at the names. */
  lemma EqualIsMapEquality(a: Env, b: Env)
    requires NamedOnce(a) && NamedOnce(b)
    ensures AsMap(a) == AsMap(b) <==> EnvAgree(a, b) && NamesOf(a) == NamesOf(b)
  {
    AsMapLooksUp(a);
    AsMapLooksUp(b);
    if EnvAgree(a, b) && NamesOf(a) == NamesOf(b) {
      forall name | name in AsMap(a) ensures name in AsMap(b) && AsMap(a)[name] == AsMap(b)[name] {
        var v :| v in a && v.name == name;
        var w :| w in b && w.name == name;
      }
    }
    if AsMap(a) == AsMap(b) {
      forall i, j | 0 <= i < |a| && 0 <= j < |b| && a[i].name == b[j].name ensures a[i].value == b[j].value {
        assert a[i] in a && b[j] in b;
      }
    }
  }

  /** In general: equal lengths, and every shared name has one value over both lists. */
  lemma EqualMeansOneValue(a: Env, b: Env)
    ensures EnvAgree(a, b) <==>
      |a| == |b| && forall name | name in NamesOf(a) && name in NamesOf(b) ::
        exists value :: ValuesOf(a, name) == {value} && ValuesOf(b, name) == {value}
  {
    if EnvAgree(a, b) {
      forall name | name in NamesOf(a) && name in NamesOf(b)
        ensures exists value :: ValuesOf(a, name) == {value} && ValuesOf(b, name) == {value}
      {
        var v :| v in a && v.name == name;
        var w :| w in b && w.name == name;
        assert ValuesOf(a, name) == {v.value} && ValuesOf(b, name) == {v.value};
      }
    }
    if |a| == |b| && forall name | name in NamesOf(a) && name in NamesOf(b) ::
        exists value :: ValuesOf(a, name) == {value} && ValuesOf(b, name) == {value} {
      forall i, j | 0 <= i < |a| && 0 <= j < |b| && a[i].name == b[j].name ensures a[i].value == b[j].value {
        var name := a[i].name;
        assert a[i] in a && b[j] in b;
        assert a[i].value in ValuesOf(a, name) && b[j].value in ValuesOf(b, name);
        assert name in NamesOf(a) && name in NamesOf(b);
      }
    }
  }

  /** The order of either list does not matter. */
  lemma EqualIgnoresOrder(a: Env, b: Env, a': Env, b': Env)
    requires multiset(a) == multiset(a') && multiset(b) == multiset(b')
    ensures EnvAgree(a, b) <==> EnvAgree(a', b')
  {
    assert |a| == |multiset(a)| == |a'| && |b| == |multiset(b)| == |b'|;
    if EnvAgree(a, b) {
      PermutedAgree(a, b, a', b');
    }
    if EnvAgree(a', b') {
      PermutedAgree(a', b', a, b);
    }
  }

  lemma PermutedAgree(a: Env, b: Env, a': Env, b': Env)
    requires multiset(a) == multiset(a') && multiset(b) == multiset(b')
    requires |a| == |a'| && |b| == |b'| && EnvAgree(a, b)
    ensures EnvAgree(a', b')
  {
    forall i, j | 0 <= i < |a'| && 0 <= j < |b'| && a'[i].name == b'[j].name ensures a'[i].value == b'[j].value {
      assert a'[i] in multiset(a) && b'[j] in multiset(b);
      var p :| 0 <= p < |a| && a[p] == a'[i];
      var q :| 0 <= q < |b| && b[q] == b'[j];
    }
  }

  /** A list equals itself exactly when it has no conflicting duplicate. */
  lemma EqualReflexiveIff(a: Env)
    ensures EnvAgree(a, a) <==> ConflictFree(a)
  {
  }

  /** A rename goes unnoticed. */
  lemma RenameMissed()
    ensures var a, b := [EnvVar("REGION", "eu")], [EnvVar("ZONE", "eu")];
      EnvAgree(a, b) && AsMap(a) != AsMap(b)
  {
    var a, b := [EnvVar("REGION", "eu")], [EnvVar("ZONE", "eu")];
    assert a[0].name[0] != b[0].name[0];
    AsMapLooksUp(a);
    AsMapLooksUp(b);
    assert a[0] in a && b[0] in b;
    assert "REGION" in AsMap(a) && "REGION" !in AsMap(b);
  }
}

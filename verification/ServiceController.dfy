/** pkg/controller/service/service_controller.go, as an object over the API server. The
    environment variable PLATFORM is a parameter. */
module ServiceController {
  import opened Model
  import opened NodeSet
  import opened EnvVars
  import opened ServiceEnv
  import opened Protocol
  import opened Controllers

  class ServiceReconciler {
    const api: ApiServer

    constructor (api: ApiServer)
      ensures this.api == api
    {
      this.api := api;
    }

    method Reconcile(name: string, platform: string) returns (outcome: ServiceOutcome)
      requires WellFormed(api.View())
      modifies api`services, api`modules
      ensures (api.View(), outcome) == ReconcileService(old(api.View()), name, platform)
    {
      hide WellKeyed, BuiltEnv, Provisioner, EnvAgree;
      if name !in api.services {
        return ServiceMissing;
      }
      var instance := api.services[name];
      var env, provisioner := BuildEnv(instance, platform);
      var deploy := Module(
        ModuleName(instance.name), instance.name, instance.app,
        ModuleSpec(provisioner, provisioner + "-" + instance.spec.version, instance.spec.replicas,
          instance.spec.flavor, env),
        NO_MODULE_STATUS);
      if deploy.name !in api.modules {
        api.modules := api.modules[deploy.name := deploy];
        return ModuleCreated;
      }
      var found := api.modules[deploy.name];
      var different := IsModuleDifferent(found, deploy);
      if different {
        found := found.(spec := deploy.spec);
        api.modules := api.modules[found.name := found];
      }
      assert api.modules == old(api.modules)[deploy.name := found];
      if instance.status.phase != found.status.phase {
        instance := instance.(status := ServiceStatus(found.status.phase, found.name));
        api.services := api.services[name := instance];
      }
      assert api.services == old(api.services)[name := instance];
      if found.status.phase == Pending || found.status.phase == Running {
        return Requeued;
      }
      if instance.status.phase == Completed && instance.app == "kubernetes-cluster" {
        return Extras;
      }
      return Idle;
    }
  }
}

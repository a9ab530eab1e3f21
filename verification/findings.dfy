/** The absent Ingress with ingress switched off (line 177 of
    controllers/app_controller.go). The condition on line 171 joins "the
    Ingress is absent" with "ingress is on", so an absent Ingress with
    ingress off falls through to the branch for lookup failures and the
    lookup's NotFound error becomes the result of the pass. Every such pass
    is then reported as failed although nothing is wrong, and the pass is
    retried for as long as the App stays that way. */
module Findings {
  import opened Cluster
  import opened Trace
  import opened Reconciler
  import opened Properties

  /** An App with services on and ingress off. */
  function ServiceOnlyApp(): App
  {
    App(Key("web", "default"), AppSpec(2, "nginx:1.0", true, false))
  }

  /** A cluster where every call succeeds, reconciling `ServiceOnlyApp`. */
  function ServiceOnlyEnv(): (env: Env)
    ensures Healthy(env) && env.app == AppFound(ServiceOnlyApp())
  {
    var fine := KindOracle(Ok, None, Ok);
    Env(AppFound(ServiceOnlyApp()), fine, fine, fine)
  }

  /** As written: on an empty cluster where every call succeeds, the pass
      creates the Deployment and the Service and then reports NotFound. */
  lemma AbsentIngressReportedAsError()
    ensures var r := Reconcile(ServiceOnlyEnv(), map[]);
            r.err == Some(NotFound) &&
            r.store == map[Deployment := Desired(Deployment, ServiceOnlyApp()),
                           Service := Desired(Service, ServiceOnlyApp())]
  {
  }

  /** Corrected: where every call succeeds, every pass succeeds. */
  lemma CorrectedHealthyPassSucceeds(env: Env, st: Store)
    requires Healthy(env) && env.app.AppFound?
    ensures ReconcileCorrected(env, st).err.None?
  {
    var app := env.app.app;
    assert env.OracleFor(Deployment) == KindOracle(Ok, None, Ok);
    assert env.OracleFor(Service) == KindOracle(Ok, None, Ok);
    assert env.OracleFor(Ingress) == KindOracle(Ok, None, Ok);
    assert ReachesIngress(app, env, st);
    if app.spec.enableService {
      IngressEndsPass(Skip, env, st);
      IngressObservation(app, env, st);
    }
  }

  /** The two readings of the Ingress step issue the same calls and leave
      the same store; they differ only on an absent Ingress with ingress
      off. */
  lemma IngressStepReadings(app: App, oracle: KindOracle, st: Store)
    ensures var asWritten := IngressStep(ReportNotFound, app, oracle, st);
            var corrected := IngressStep(Skip, app, oracle, st);
            corrected.calls == asWritten.calls && corrected.store == asWritten.store &&
            (corrected.err != asWritten.err ==>
               asWritten.err == Some(NotFound) && corrected.err.None? && !app.spec.enableIngress)
    ensures var asWritten := IngressStep(ReportNotFound, app, oracle, st);
            var corrected := IngressStep(Skip, app, oracle, st);
            corrected.err != asWritten.err <==>
              oracle.ownerRef.Ok? && Observe(Ingress, oracle, st) == GetFailed(NotFound) && !app.spec.enableIngress
  {
  }

  /** The same for the steps after the App lookup. */
  lemma StepsReadings(app: App, env: Env, st: Store)
    ensures var asWritten := ConvergeAll(ReportNotFound, app, env, st);
            var corrected := ConvergeAll(Skip, app, env, st);
            corrected.calls == asWritten.calls && corrected.store == asWritten.store &&
            (corrected.err != asWritten.err ==>
               asWritten.err == Some(NotFound) && corrected.err.None? &&
               app.spec.enableService && !app.spec.enableIngress)
    ensures var asWritten := ConvergeAll(ReportNotFound, app, env, st);
            var corrected := ConvergeAll(Skip, app, env, st);
            corrected.err != asWritten.err <==>
              app.spec.enableService && !app.spec.enableIngress && ReachesIngress(app, env, st) &&
              env.ingress.ownerRef.Ok? && Observe(Ingress, env.ingress, st) == GetFailed(NotFound)
  {
    if ReachesIngress(app, env, st) && app.spec.enableService {
      IngressStepReadings(app, env.ingress, ServiceStep(app, env, st).store);
      IngressObservation(app, env, st);
    }
  }

  /** The correction changes nothing but the result, and changes it exactly
      where the Ingress lookup reports an absent Ingress with ingress off:
      there the NotFound becomes success. */
  lemma CorrectionOnlyChangesResult(env: Env, st: Store)
    ensures var asWritten := Reconcile(env, st);
            var corrected := ReconcileCorrected(env, st);
            corrected.calls == asWritten.calls && corrected.store == asWritten.store
    ensures var asWritten := Reconcile(env, st);
            var corrected := ReconcileCorrected(env, st);
            corrected.err != asWritten.err ==>
              asWritten.err == Some(NotFound) && corrected.err.None? &&
              env.app.AppFound? && env.app.app.spec.enableService && !env.app.app.spec.enableIngress
    // the results differ exactly when the pass reaches the Ingress step and
    // its lookup reports the Ingress absent with ingress off
    ensures var asWritten := Reconcile(env, st);
            var corrected := ReconcileCorrected(env, st);
            corrected.err != asWritten.err <==>
              env.app.AppFound? && env.app.app.spec.enableService && !env.app.app.spec.enableIngress &&
              ReachesIngress(env.app.app, env, st) && env.ingress.ownerRef.Ok? &&
              Observe(Ingress, env.ingress, st) == GetFailed(NotFound)
  {
    if env.app.AppFound? {
      StepsReadings(env.app.app, env, st);
    }
  }
}

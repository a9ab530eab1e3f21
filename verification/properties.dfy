/** Properties of a reconciliation pass that relate its steps to one
    another or relate two passes. */
module Properties {
  import opened Cluster
  import opened Trace
  import opened Reconciler

  /** The Deployment step of a pass over `app`. */
  function DeploymentStep(app: App, env: Env, st: Store): Pass
  {
    Converge(Deployment, app, env.deployment, st)
  }

  /** The Service step, which starts from the store the Deployment step
      left behind. */
  function ServiceStep(app: App, env: Env, st: Store): Pass
  {
    Converge(Service, app, env.service, DeploymentStep(app, env, st).store)
  }

  /** The steps that precede the Ingress both succeeded. */
  predicate ReachesIngress(app: App, env: Env, st: Store)
  {
    DeploymentStep(app, env, st).err.None? && ServiceStep(app, env, st).err.None?
  }

  /** A trace about one kind only is ordered. */
  lemma OnlyAboutInOrder(calls: seq<Call>, k: Kind)
    requires OnlyAbout(calls, k)
    ensures InOrder(calls)
    ensures forall i :: 0 <= i < |calls| ==> calls[i].Rank() == KindRank(k)
  {
  }

  /** Up to three traces about the Deployment, the Service and the Ingress
      respectively, joined in that order, make an ordered trace without an
      App lookup. */
  lemma StepTracesInOrder(d: seq<Call>, s: seq<Call>, i: seq<Call>)
    requires OnlyAbout(d, Deployment) && OnlyAbout(s, Service) && OnlyAbout(i, Ingress)
    ensures InOrder(d + s + i)
    ensures forall j :: 0 <= j < |d + s + i| ==> (d + s + i)[j].Rank() >= 1
  {
    OnlyAboutInOrder(d, Deployment);
    OnlyAboutInOrder(s, Service);
    OnlyAboutInOrder(i, Ingress);
    InOrderAppend(d, s, 1);
    forall j | 0 <= j < |d + s|
      ensures 1 <= (d + s)[j].Rank() <= 2
    {
      if j < |d| {
        assert (d + s)[j] == d[j];
      } else {
        assert (d + s)[j] == s[j - |d|];
      }
    }
    InOrderAppend(d + s, i, 2);
    forall j | 0 <= j < |d + s + i|
      ensures (d + s + i)[j].Rank() >= 1
    {
      if j < |d + s| {
        assert (d + s + i)[j] == (d + s)[j];
      } else {
        assert (d + s + i)[j] == i[j - |d + s|];
      }
    }
  }

  /** After the App lookup, calls are issued Deployment, then Service, then
      Ingress, each kind's calls together. */
  lemma StepsInOrder(policy: AbsentIngress, app: App, env: Env, st: Store)
    ensures var calls := ConvergeAll(policy, app, env, st).calls;
            InOrder(calls) && forall i :: 0 <= i < |calls| ==> calls[i].Rank() >= 1
  {
    var d := DeploymentStep(app, env, st);
    if d.err.Some? {
      StepTracesInOrder(d.calls, [], []);
      assert d.calls + [] + [] == d.calls;
    } else {
      var s := ServiceStep(app, env, st);
      if s.err.None? && app.spec.enableService {
        var i := IngressStep(policy, app, env.ingress, s.store);
        StepTracesInOrder(d.calls, s.calls, i.calls);
      } else {
        StepTracesInOrder(d.calls, s.calls, []);
        assert d.calls + s.calls + [] == d.calls + s.calls;
      }
    }
  }

  /** Calls are issued App first, then Deployment, Service, Ingress, each
      kind's calls together. */
  lemma FixedOrder(policy: AbsentIngress, env: Env, st: Store)
    ensures InOrder(ReconcileWith(policy, env, st).calls)
  {
    if env.app.AppFound? {
      var rest := ConvergeAll(policy, env.app.app, env, st);
      StepsInOrder(policy, env.app.app, env, st);
      InOrderAppend([GetApp], rest.calls, 0);
    }
  }

  /** A failing step ends the pass with its own error: nothing of a later
      kind is called, and only the earlier kinds have been written. */
  lemma FirstFailureEndsPass(policy: AbsentIngress, env: Env, st: Store)
    requires env.app.AppFound?
    ensures var app := env.app.app;
            var r := ReconcileWith(policy, env, st);
            var d := DeploymentStep(app, env, st);
            d.err.Some? ==>
              r.err == d.err && r.store == st &&
              !Touches(r.calls, Service) && !Touches(r.calls, Ingress)
    ensures var app := env.app.app;
            var r := ReconcileWith(policy, env, st);
            var s := ServiceStep(app, env, st);
            DeploymentStep(app, env, st).err.None? && s.err.Some? ==>
              r.err == s.err && r.store == st[Deployment := Desired(Deployment, app)] &&
              !Touches(r.calls, Ingress)
  {
  }

  /** The App lookup writes nothing. */
  lemma WritesAfterLookup(rest: seq<Call>, k: Kind)
    ensures WritesOn([GetApp] + rest, k) == WritesOn(rest, k)
  {
  }

  /** After the App lookup, the Deployment writes are those of its step. */
  lemma StepWritesDeployment(policy: AbsentIngress, app: App, env: Env, st: Store)
    ensures WritesOn(ConvergeAll(policy, app, env, st).calls, Deployment) ==
            WritesOn(DeploymentStep(app, env, st).calls, Deployment)
  {
    var d := DeploymentStep(app, env, st);
    if d.err.None? {
      var s := ServiceStep(app, env, st);
      WritesOnUntouched(s.calls, Deployment);
      WritesOnAppend(d.calls, s.calls, Deployment);
      if s.err.None? && app.spec.enableService {
        var i := IngressStep(policy, app, env.ingress, s.store);
        WritesOnUntouched(i.calls, Deployment);
        WritesOnAppend(d.calls + s.calls, i.calls, Deployment);
      }
    }
  }

  /** After the App lookup, the Service writes are those of its step, or
      none when the Deployment step failed. */
  lemma StepWritesService(policy: AbsentIngress, app: App, env: Env, st: Store)
    ensures WritesOn(ConvergeAll(policy, app, env, st).calls, Service) ==
            if DeploymentStep(app, env, st).err.Some? then []
            else WritesOn(ServiceStep(app, env, st).calls, Service)
  {
    var d := DeploymentStep(app, env, st);
    WritesOnUntouched(d.calls, Service);
    if d.err.None? {
      var s := ServiceStep(app, env, st);
      WritesOnAppend(d.calls, s.calls, Service);
      if s.err.None? && app.spec.enableService {
        var i := IngressStep(policy, app, env.ingress, s.store);
        WritesOnUntouched(i.calls, Service);
        WritesOnAppend(d.calls + s.calls, i.calls, Service);
      }
    }
  }

  /** After the App lookup, the Ingress writes are those of its step, or
      none when that step is not reached. */
  lemma StepWritesIngress(policy: AbsentIngress, app: App, env: Env, st: Store)
    ensures WritesOn(ConvergeAll(policy, app, env, st).calls, Ingress) ==
            if !ReachesIngress(app, env, st) || !app.spec.enableService then []
            else WritesOn(IngressStep(policy, app, env.ingress, ServiceStep(app, env, st).store).calls, Ingress)
  {
    var d := DeploymentStep(app, env, st);
    WritesOnUntouched(d.calls, Ingress);
    if d.err.None? {
      var s := ServiceStep(app, env, st);
      WritesOnUntouched(s.calls, Ingress);
      WritesOnAppend(d.calls, s.calls, Ingress);
      if s.err.None? && app.spec.enableService {
        var i := IngressStep(policy, app, env.ingress, s.store);
        WritesOnAppend(d.calls + s.calls, i.calls, Ingress);
      }
    }
  }

  /** The Deployment is created when its lookup reports it absent and
      replaced when the lookup finds it, whatever it holds; it is written at
      most once per pass. */
  lemma DeploymentCreateOrUpdate(policy: AbsentIngress, env: Env, st: Store)
    requires env.app.AppFound? && env.deployment.ownerRef.Ok?
    ensures var w := WritesOn(ReconcileWith(policy, env, st).calls, Deployment);
            var obs := Observe(Deployment, env.deployment, st);
            w == (if obs.Found? then [Update(Desired(Deployment, env.app.app))]
                  else if obs == GetFailed(NotFound) then [Create(Desired(Deployment, env.app.app))]
                  else [])
  {
    WritesAfterLookup(ConvergeAll(policy, env.app.app, env, st).calls, Deployment);
    StepWritesDeployment(policy, env.app.app, env, st);
  }

  /** The Service is handled whatever the flags say, once the Deployment is
      in place: created when absent, replaced when present. */
  lemma ServiceCreateOrUpdate(policy: AbsentIngress, env: Env, st: Store)
    requires env.app.AppFound? && DeploymentStep(env.app.app, env, st).err.None?
    ensures Touches(ReconcileWith(policy, env, st).calls, Service)
    ensures env.service.ownerRef.Ok? ==>
            var w := WritesOn(ReconcileWith(policy, env, st).calls, Service);
            var obs := Observe(Service, env.service, st);
            w == (if obs.Found? then [Update(Desired(Service, env.app.app))]
                  else if obs == GetFailed(NotFound) then [Create(Desired(Service, env.app.app))]
                  else [])
  {
    var app := env.app.app;
    var rest := ConvergeAll(policy, app, env, st);
    var d := DeploymentStep(app, env, st);
    var s := ServiceStep(app, env, st);
    assert rest.calls[|d.calls|] == SetOwner(Service);
    assert ([GetApp] + rest.calls)[1 + |d.calls|] == SetOwner(Service);
    ObserveOtherKind(Service, Deployment, env.service, st, Desired(Deployment, app));
    WritesAfterLookup(rest.calls, Service);
    StepWritesService(policy, app, env, st);
  }

  /** With services off the pass ends after the Service step, with that
      step's result, and the Ingress is neither looked up nor written,
      whatever the ingress flag says. */
  lemma IngressSkippedWithoutServices(policy: AbsentIngress, env: Env, st: Store)
    requires env.app.AppFound? && !env.app.app.spec.enableService
    ensures var r := ReconcileWith(policy, env, st);
            !Touches(r.calls, Ingress) &&
            (r.err.None? <==> ReachesIngress(env.app.app, env, st))
  {
  }

  /** What the Ingress lookup sees once the steps before it succeeded. */
  lemma IngressObservation(app: App, env: Env, st: Store)
    requires ReachesIngress(app, env, st)
    ensures Observe(Ingress, env.ingress, ServiceStep(app, env, st).store) == Observe(Ingress, env.ingress, st)
  {
  }

  /** A pass that reaches the Ingress step ends as that step does. */
  lemma IngressEndsPass(policy: AbsentIngress, env: Env, st: Store)
    requires env.app.AppFound? && env.app.app.spec.enableService
    requires ReachesIngress(env.app.app, env, st)
    ensures var app := env.app.app;
            var r := ReconcileWith(policy, env, st);
            var i := IngressStep(policy, app, env.ingress, ServiceStep(app, env, st).store);
            WritesOn(r.calls, Ingress) == WritesOn(i.calls, Ingress) && r.err == i.err && r.store == i.store
  {
    WritesAfterLookup(ConvergeAll(policy, env.app.app, env, st).calls, Ingress);
    StepWritesIngress(policy, env.app.app, env, st);
  }

  /** An absent Ingress is created exactly when ingress is on. With ingress
      off nothing is written and the program reports the lookup's NotFound
      error. */
  lemma IngressAbsent(env: Env, st: Store)
    requires env.app.AppFound? && env.app.app.spec.enableService
    requires ReachesIngress(env.app.app, env, st)
    requires env.ingress.ownerRef.Ok? && Observe(Ingress, env.ingress, st) == GetFailed(NotFound)
    ensures var r := Reconcile(env, st);
            WritesOn(r.calls, Ingress) ==
              (if env.app.app.spec.enableIngress then [Create(Desired(Ingress, env.app.app))] else [])
    ensures !env.app.app.spec.enableIngress ==> Reconcile(env, st).err == Some(NotFound)
  {
    IngressEndsPass(ReportNotFound, env, st);
    IngressObservation(env.app.app, env, st);
  }

  /** A present Ingress is replaced exactly when ingress is on, and the pass
      succeeds whenever nothing was written or the update succeeded; with
      ingress off it is left as it is. */
  lemma IngressPresent(policy: AbsentIngress, env: Env, st: Store)
    requires env.app.AppFound? && env.app.app.spec.enableService
    requires ReachesIngress(env.app.app, env, st)
    requires env.ingress.ownerRef.Ok? && Observe(Ingress, env.ingress, st).Found?
    ensures var r := ReconcileWith(policy, env, st);
            WritesOn(r.calls, Ingress) ==
              (if env.app.app.spec.enableIngress then [Update(Desired(Ingress, env.app.app))] else [])
    ensures var r := ReconcileWith(policy, env, st);
            r.err.None? <==> !env.app.app.spec.enableIngress || env.ingress.write.Ok?
    ensures var r := ReconcileWith(policy, env, st);
            !env.app.app.spec.enableIngress ==> Ingress in r.store && r.store[Ingress] == st[Ingress]
  {
    IngressEndsPass(policy, env, st);
    IngressObservation(env.app.app, env, st);
  }

  /** In a cluster where every call succeeds, one pass puts the Deployment
      and the Service in place, and the Ingress too when both flags are on;
      otherwise the Ingress is left as it was. The program then fails only
      when services are on, ingress is off and there is no Ingress. */
  lemma HealthyPass(env: Env, st: Store)
    requires Healthy(env) && env.app.AppFound?
    ensures var app := env.app.app;
            var r := Reconcile(env, st);
            Deployment in r.store && r.store[Deployment] == Desired(Deployment, app) &&
            Service in r.store && r.store[Service] == Desired(Service, app)
    ensures var app := env.app.app;
            var r := Reconcile(env, st);
            app.spec.enableService && app.spec.enableIngress ==>
              Ingress in r.store && r.store[Ingress] == Desired(Ingress, app)
    ensures var app := env.app.app;
            var r := Reconcile(env, st);
            !(app.spec.enableService && app.spec.enableIngress) ==>
              (Ingress in r.store <==> Ingress in st) &&
              (Ingress in st ==> r.store[Ingress] == st[Ingress])
    ensures var app := env.app.app;
            var r := Reconcile(env, st);
            r.err.None? <==> !(app.spec.enableService && !app.spec.enableIngress && Ingress !in st)
  {
    var app := env.app.app;
    assert env.OracleFor(Deployment) == KindOracle(Ok, None, Ok);
    assert env.OracleFor(Service) == KindOracle(Ok, None, Ok);
    assert env.OracleFor(Ingress) == KindOracle(Ok, None, Ok);
    assert ReachesIngress(app, env, st);
    if app.spec.enableService {
      IngressEndsPass(ReportNotFound, env, st);
      IngressObservation(app, env, st);
    }
  }

  /** A step's error does not depend on the store it starts from: a lookup
      that answers from the store leads to a write either way. */
  lemma ConvergeErrorIgnoresStore(k: Kind, app: App, oracle: KindOracle, st1: Store, st2: Store)
    ensures Converge(k, app, oracle, st1).err == Converge(k, app, oracle, st2).err
  {
  }

  /** Writing an object a store already holds leaves the store as it is. */
  lemma RewriteSame(st: Store, k: Kind, obj: Object)
    requires k in st && st[k] == obj
    ensures st[k := obj] == st
  {
  }

  /** The Ingress step, repeated from the store it left behind, ends the
      same way. */
  lemma IngressStepRepeats(policy: AbsentIngress, app: App, oracle: KindOracle, st: Store)
    ensures var first := IngressStep(policy, app, oracle, st);
            var second := IngressStep(policy, app, oracle, first.store);
            second.store == first.store && second.err == first.err
  {
  }

  /** Repeating the steps after the App lookup from the store they left
      behind ends the same way and leaves that store as it is. */
  lemma StepsRepeat(policy: AbsentIngress, app: App, env: Env, st: Store)
    ensures var first := ConvergeAll(policy, app, env, st);
            var second := ConvergeAll(policy, app, env, first.store);
            second.store == first.store && second.err == first.err
  {
    var first := ConvergeAll(policy, app, env, st);
    var d1 := DeploymentStep(app, env, st);
    var d2 := DeploymentStep(app, env, first.store);
    ConvergeErrorIgnoresStore(Deployment, app, env.deployment, st, first.store);
    if d1.err.None? {
      RewriteSame(first.store, Deployment, Desired(Deployment, app));
      assert d2.store == first.store;
      var s1 := ServiceStep(app, env, st);
      var s2 := ServiceStep(app, env, first.store);
      ConvergeErrorIgnoresStore(Service, app, env.service, d1.store, d2.store);
      if s1.err.None? {
        RewriteSame(first.store, Service, Desired(Service, app));
        assert s2.store == first.store;
        if app.spec.enableService {
          IngressStepRepeats(policy, app, env.ingress, s1.store);
        }
      }
    }
  }

  /** Running a pass again, with the App and the cluster's behaviour
      unchanged, leaves the store exactly as the first pass left it and
      reports the same result: the objects written are stable. */
  lemma SecondPassChangesNothing(policy: AbsentIngress, env: Env, st: Store)
    ensures var first := ReconcileWith(policy, env, st);
            var second := ReconcileWith(policy, env, first.store);
            second.store == first.store && second.err == first.err
  {
    if env.app.AppFound? {
      StepsRepeat(policy, env.app.app, env, st);
    }
  }

  /** Running a pass again does not skip the writes: on a cluster where
      every call succeeds, the second pass finds every object the first one
      wrote and replaces each with an identical copy, one update per object. */
  lemma SecondPassStillUpdates(env: Env, st: Store)
    requires Healthy(env) && env.app.AppFound?
    ensures var app := env.app.app;
            var second := Reconcile(env, Reconcile(env, st).store);
            WritesOn(second.calls, Deployment) == [Update(Desired(Deployment, app))] &&
            WritesOn(second.calls, Service) == [Update(Desired(Service, app))]
    ensures var app := env.app.app;
            var second := Reconcile(env, Reconcile(env, st).store);
            app.spec.enableService && app.spec.enableIngress ==>
              WritesOn(second.calls, Ingress) == [Update(Desired(Ingress, app))]
  {
    var app := env.app.app;
    var mid := Reconcile(env, st).store;
    assert env.OracleFor(Deployment) == KindOracle(Ok, None, Ok);
    assert env.OracleFor(Service) == KindOracle(Ok, None, Ok);
    assert env.OracleFor(Ingress) == KindOracle(Ok, None, Ok);
    HealthyPass(env, st);
    DeploymentCreateOrUpdate(ReportNotFound, env, mid);
    assert DeploymentStep(app, env, mid).err.None?;
    ServiceCreateOrUpdate(ReportNotFound, env, mid);
    if app.spec.enableService && app.spec.enableIngress {
      assert ReachesIngress(app, env, mid);
      IngressPresent(ReportNotFound, env, mid);
    }
  }
}

/** One pass of the App reconciler (controllers/app_controller.go,
    `AppReconciler.Reconcile`): fetch the App, then converge the Deployment,
    the Service and, behind the flags, the Ingress, stopping at the first
    error.

    A pass is a pure function of the oracle and the store it starts from. It
    returns every call it issued, the store it leaves behind and the error it
    reports (`None` for success). The `ctrl.Result` the program returns is
    always empty, so it is not part of the model.
 */
module Reconciler {
  import opened Cluster
  import opened Trace

  datatype Pass = Pass(calls: seq<Call>, store: Store, err: Option<Error>)

  /** How a pass ends when services are on, the Ingress lookup reports it
      absent and ingress is off. The program returns the lookup's NotFound
      error (`ReportNotFound`); the evidently intended reading leaves the
      Ingress alone and succeeds (`Skip`). */
  datatype AbsentIngress = ReportNotFound | Skip

  /** The template renderers: the object of kind `k` rendered for `app`. */
  function Render(k: Kind, app: App): Object
  {
    Object(k, app.key, app.spec, None)
  }

  /** The object as it is sent to the API server: rendered and stamped with
      `app` as its controller owner. */
  function Desired(k: Kind, app: App): (o: Object)
    ensures o.kind == k && o.key == app.key && o.renderedFrom == app.spec
    ensures o.controller == Some(app.key)
  {
    Render(k, app).(controller := Some(app.key))
  }

  /** Issues the last call of `calls`, a create or update of `obj`, whose
      outcome is `outcome`. */
  function Write(calls: seq<Call>, k: Kind, obj: Object, outcome: Outcome, st: Store): (p: Pass)
    ensures p.calls == calls
    ensures outcome.Ok? ==> p.err.None? && p.store == st[k := obj]
    ensures outcome.Fail? ==> p.err == Some(outcome.error) && p.store == st
  {
    match outcome
    case Fail(e) => Pass(calls, st, Some(e))
    case Ok => Pass(calls, st[k := obj], None)
  }

  /** Converges the Deployment or the Service (lines 81-121 and 125-149):
      stamp the owner reference, look the object up, then create it if it
      is absent or replace it if it is present. The existing object is
      never compared with the desired one. */
  function Converge(k: Kind, app: App, oracle: KindOracle, st: Store): (p: Pass)
    ensures OnlyAbout(p.calls, k)
    ensures |p.calls| > 0 && p.calls[0] == SetOwner(k)
    // which write is issued: none unless the stamp succeeded and the lookup
    // answered; then a create exactly when the object is absent and an
    // update exactly when it is present, always of the desired object
    ensures oracle.ownerRef.Fail? || !Answered(Observe(k, oracle, st)) ==> WritesOn(p.calls, k) == []
    ensures oracle.ownerRef.Ok? && Observe(k, oracle, st).Found? ==>
              WritesOn(p.calls, k) == [Update(Desired(k, app))]
    ensures oracle.ownerRef.Ok? && Observe(k, oracle, st) == GetFailed(NotFound) ==>
              WritesOn(p.calls, k) == [Create(Desired(k, app))]
    // success exactly when every call succeeded, and then the object is in
    // place; a failed step leaves the store as it found it
    ensures p.err.None? <==> oracle.ownerRef.Ok? && Answered(Observe(k, oracle, st)) && oracle.write.Ok?
    ensures p.err.None? ==> p.store == st[k := Desired(k, app)]
    ensures p.err.Some? ==> p.store == st
    // the error reported is the one of the call that failed
    ensures oracle.ownerRef.Fail? ==> p.err == Some(oracle.ownerRef.error)
    ensures oracle.ownerRef.Ok? && !Answered(Observe(k, oracle, st)) ==>
              p.err == Some(Observe(k, oracle, st).error)
    ensures oracle.ownerRef.Ok? && Answered(Observe(k, oracle, st)) && oracle.write.Fail? ==>
              p.err == Some(oracle.write.error)
    // the stamp, then the lookup, then at most one write; a failed stamp is
    // the only call, and a failed lookup is the last one
    ensures oracle.ownerRef.Ok? ==> 2 <= |p.calls| <= 3 && p.calls[1] == Get(k)
    ensures oracle.ownerRef.Fail? ==> p.calls == [SetOwner(k)]
    ensures oracle.ownerRef.Ok? && !Answered(Observe(k, oracle, st)) ==> p.calls == [SetOwner(k), Get(k)]
  {
    var obj := Desired(k, app);
    match oracle.ownerRef
    case Fail(e) => Pass([SetOwner(k)], st, Some(e))
    case Ok =>
      var looked := [SetOwner(k), Get(k)];
      WritesOnNoWrite(looked, k);
      match Observe(k, oracle, st)
      case GetFailed(e) =>
        if e == NotFound then
          WritesOnOwnKind(looked + [Create(obj)], k);
          Write(looked + [Create(obj)], k, obj, oracle.write, st)
        else
          Pass(looked, st, Some(e))
      case Found(_) =>
        WritesOnOwnKind(looked + [Update(obj)], k);
        Write(looked + [Update(obj)], k, obj, oracle.write, st)
  }

  /** Handles the Ingress once services are on (lines 160-189). A create is
      issued only when the Ingress is absent and ingress is on; an update
      only when it is present and ingress is on. */
  function IngressStep(policy: AbsentIngress, app: App, oracle: KindOracle, st: Store): (p: Pass)
    ensures OnlyAbout(p.calls, Ingress)
    ensures |p.calls| > 0 && p.calls[0] == SetOwner(Ingress)
    ensures oracle.ownerRef.Fail? || !Answered(Observe(Ingress, oracle, st)) ==> WritesOn(p.calls, Ingress) == []
    // absent: a create exactly when ingress is on
    ensures oracle.ownerRef.Ok? && Observe(Ingress, oracle, st) == GetFailed(NotFound) ==>
              WritesOn(p.calls, Ingress) ==
                (if app.spec.enableIngress then [Create(Desired(Ingress, app))] else [])
    // present: an update exactly when ingress is on
    ensures oracle.ownerRef.Ok? && Observe(Ingress, oracle, st).Found? ==>
              WritesOn(p.calls, Ingress) ==
                (if app.spec.enableIngress then [Update(Desired(Ingress, app))] else [])
    // absent with ingress off: the program reports the lookup's NotFound
    ensures oracle.ownerRef.Ok? && Observe(Ingress, oracle, st) == GetFailed(NotFound) && !app.spec.enableIngress ==>
              p.err == (if policy == ReportNotFound then Some(NotFound) else None)
    // present: success whenever nothing was written or the write succeeded
    ensures oracle.ownerRef.Ok? && Observe(Ingress, oracle, st).Found? ==>
              (p.err.None? <==> !app.spec.enableIngress || oracle.write.Ok?)
    ensures oracle.ownerRef.Fail? ==> p.err == Some(oracle.ownerRef.error)
    ensures oracle.ownerRef.Ok? && !Answered(Observe(Ingress, oracle, st)) ==>
              p.err == Some(Observe(Ingress, oracle, st).error)
    // a write with ingress on: its error, or on success the desired Ingress
    ensures oracle.ownerRef.Ok? && Answered(Observe(Ingress, oracle, st)) && app.spec.enableIngress ==>
              (oracle.write.Fail? ==> p.err == Some(oracle.write.error))
    ensures oracle.ownerRef.Ok? && Answered(Observe(Ingress, oracle, st)) && app.spec.enableIngress ==>
              (oracle.write.Ok? ==> p.err.None? && p.store == st[Ingress := Desired(Ingress, app)])
    // the stamp, then the lookup, then at most one write; a failed stamp is
    // the only call, and a failed lookup or ingress off ends the step after
    // the lookup
    ensures oracle.ownerRef.Ok? ==> 2 <= |p.calls| <= 3 && p.calls[1] == Get(Ingress)
    ensures oracle.ownerRef.Fail? ==> p.calls == [SetOwner(Ingress)]
    ensures oracle.ownerRef.Ok? && (!Answered(Observe(Ingress, oracle, st)) || !app.spec.enableIngress) ==>
              p.calls == [SetOwner(Ingress), Get(Ingress)]
    // the store only ever gains the desired Ingress, and only from a write
    // that succeeded while ingress is on
    ensures p.store == st || (app.spec.enableIngress && p.store == st[Ingress := Desired(Ingress, app)])
    ensures p.store != st ==> WritesOn(p.calls, Ingress) != [] && p.err.None?
  {
    var obj := Desired(Ingress, app);
    match oracle.ownerRef
    case Fail(e) => Pass([SetOwner(Ingress)], st, Some(e))
    case Ok =>
      var looked := [SetOwner(Ingress), Get(Ingress)];
      WritesOnNoWrite(looked, Ingress);
      match Observe(Ingress, oracle, st)
      case GetFailed(e) =>
        if e == NotFound && app.spec.enableIngress then
          WritesOnOwnKind(looked + [Create(obj)], Ingress);
          Write(looked + [Create(obj)], Ingress, obj, oracle.write, st)
        else if e == NotFound && policy == Skip then
          Pass(looked, st, None)
        else
          assert e == NotFound && !app.spec.enableIngress ==> policy == ReportNotFound;
          Pass(looked, st, Some(e))
      case Found(_) =>
        if app.spec.enableIngress then
          // lines 182-186 return err either way, and it is nil after a
          // successful update
          WritesOnOwnKind(looked + [Update(obj)], Ingress);
          Write(looked + [Update(obj)], Ingress, obj, oracle.write, st)
        else
          Pass(looked, st, None)
  }

  /** Every object the pass leaves behind is either one it found, untouched,
      or the desired object stamped with the App as its controller. */
  predicate OwnedOrUntouched(st: Store, st': Store, app: App)
  {
    forall k :: k in st' ==> (k in st && st'[k] == st[k]) || st'[k] == Desired(k, app)
  }

  /** Writing the desired object, or nothing, keeps every object owned or
      untouched. */
  lemma OwnedAfterWrite(st: Store, k: Kind, app: App)
    ensures OwnedOrUntouched(st, st, app)
    ensures OwnedOrUntouched(st, st[k := Desired(k, app)], app)
  {
  }

  lemma OwnedTransitive(a: Store, b: Store, c: Store, app: App)
    requires OwnedOrUntouched(a, b, app) && OwnedOrUntouched(b, c, app)
    requires a.Keys <= b.Keys
    ensures OwnedOrUntouched(a, c, app)
  {
  }

  /** The part of a pass after the App was found (lines 81-191): the
      Deployment, then the Service, then, when services are on, the
      Ingress, stopping at the first step that fails. */
  function ConvergeAll(policy: AbsentIngress, app: App, env: Env, st: Store): (r: Pass)
    // nothing is ever deleted, and every object written is the desired one
    ensures st.Keys <= r.store.Keys
    ensures OwnedOrUntouched(st, r.store, app)
    // a later kind is touched only once every earlier kind is in place
    ensures Touches(r.calls, Service) || Touches(r.calls, Ingress) ==>
              Deployment in r.store && r.store[Deployment] == Desired(Deployment, app)
    ensures Touches(r.calls, Ingress) ==>
              Service in r.store && r.store[Service] == Desired(Service, app)
    // a successful pass leaves the Deployment and the Service in place
    ensures r.err.None? ==>
              Deployment in r.store && r.store[Deployment] == Desired(Deployment, app) &&
              Service in r.store && r.store[Service] == Desired(Service, app)
    // with services off the Ingress is never looked at
    ensures !app.spec.enableService ==> !Touches(r.calls, Ingress)
    // the Ingress changes only when both flags are on
    ensures Ingress in r.store && (Ingress !in st || r.store[Ingress] != st[Ingress]) ==>
              app.spec.enableService && app.spec.enableIngress
  {
    var d := Converge(Deployment, app, env.deployment, st);
    OwnedAfterWrite(st, Deployment, app);
    OnlyAboutTouches(d.calls, Deployment, Service);
    OnlyAboutTouches(d.calls, Deployment, Ingress);
    if d.err.Some? then
      d
    else
      var s := Converge(Service, app, env.service, d.store);
      var upToS := d.calls + s.calls;
      OwnedAfterWrite(d.store, Service, app);
      OwnedTransitive(st, d.store, s.store, app);
      OnlyAboutTouches(s.calls, Service, Ingress);
      TouchesAppend(d.calls, s.calls, Ingress);
      if s.err.Some? then
        Pass(upToS, s.store, s.err)
      else if !app.spec.enableService then
        // line 157 returns err, which is nil once the Service step succeeded
        Pass(upToS, s.store, s.err)
      else
        var i := IngressStep(policy, app, env.ingress, s.store);
        OwnedAfterWrite(s.store, Ingress, app);
        OwnedTransitive(st, s.store, i.store, app);
        Pass(upToS + i.calls, i.store, i.err)
  }

  /** One reconciliation pass (lines 60-192). */
  function ReconcileWith(policy: AbsentIngress, env: Env, st: Store): (r: Pass)
    // the App lookup comes first; a missing App ends the pass in success,
    // any other lookup error ends it with that error, both with no further
    // call and no change
    ensures |r.calls| > 0 && r.calls[0] == GetApp
    ensures env.app.AppFailed? ==> r.calls == [GetApp] && r.store == st
    ensures env.app.AppFailed? ==> (r.err.None? <==> env.app.error == NotFound)
    ensures env.app.AppFailed? && env.app.error != NotFound ==> r.err == Some(env.app.error)
    // nothing is ever deleted, and every object written is the desired one
    ensures st.Keys <= r.store.Keys
    ensures env.app.AppFound? ==> OwnedOrUntouched(st, r.store, env.app.app)
  {
    match env.app
    case AppFailed(e) => Pass([GetApp], st, if e == NotFound then None else Some(e))
    case AppFound(app) =>
      var rest := ConvergeAll(policy, app, env, st);
      Pass([GetApp] + rest.calls, rest.store, rest.err)
  }

  /** The pass as the program performs it. */
  function Reconcile(env: Env, st: Store): Pass
  {
    ReconcileWith(ReportNotFound, env, st)
  }

  /** The pass with the absent, switched-off Ingress treated as done. */
  function ReconcileCorrected(env: Env, st: Store): Pass
  {
    ReconcileWith(Skip, env, st)
  }
}

# App reconciler, modelled in Dafny

A model of the reconciliation pass of the kubebuilder-demo operator
(`AppReconciler.Reconcile` in `controllers/app_controller.go`). An `App`
custom resource asks for a Deployment, a Service and, behind two flags
(`EnableService`, `EnableIngress`), an Ingress, all sharing the App's
namespaced name. One pass:

1. looks up the App; an App that no longer exists ends the pass in success,
   any other lookup error ends it with that error;
2. for the Deployment, then the Service: renders the object, stamps the App
   as its controller owner, looks the object up, and creates it when absent
   or replaces it when present, with no comparison against what is there;
   any failure ends the pass with that error;
3. when `EnableService` is on, does the same for the Ingress, except that it
   only writes when `EnableIngress` is on.

The pass is modelled as a pure function `Reconciler.ReconcileWith` from an
oracle and a store to the calls it issued, the store it leaves behind and
the error it reports. The store (`Cluster.Store`) maps each dependent kind to
the object of that kind under the App's name. The oracle (`Cluster.Env`)
stands for the API server and for the local owner-reference check: the
outcome of the App lookup and, per kind, the outcome of stamping the owner
reference (done locally against the scheme, with no request), a lookup fault that overrides the
store (a cache or transport error, possibly a stale NotFound), and the
outcome of the create or update call. A lookup without a fault answers from
the store: the object if present, NotFound otherwise.

Files:

- `cluster.dfy` (module `Cluster`): App, objects, errors, store, oracle, lookup.
- `trace.dfy` (module `Trace`): the calls of a pass and views of a trace
  (writes per kind, kinds touched, order), with the lemmas over
  concatenation the other proofs use.
- `reconciler.dfy` (module `Reconciler`): the steps and the pass.
- `properties.dfy` (module `Properties`): properties relating steps and passes.
- `findings.dfy` (module `Findings`): the absent-Ingress result, as written
  and corrected.

Three places where the code is easy to misread; the model does what the
code does:

- After a successful Ingress update (lines 182-186) the program logs
  "update ingress failed" but returns `err`, which is nil there, so the pass
  succeeds (`Properties.IngressPresent`).
- With `EnableService` on, `EnableIngress` off and no Ingress, the program
  returns the lookup's NotFound error (line 177), so the pass fails; see
  Findings.
- Line 157 returns `err` rather than nil; `err` is nil there because the
  Service step succeeded, so the pass succeeds.

## Model

| member | source | states |
|---|---|---|
| Cluster.Observe | controllers/app_controller.go:96-99 | A lookup finds the stored object exactly when it exists and no fault intervenes, and then returns that object; without a fault an absent object is reported as NotFound; a fault is reported as it is. |
| Reconciler.Converge | controllers/app_controller.go:81-149 | The Deployment or Service step stamps the owner first, touches only its own kind, creates exactly when the lookup reports NotFound and updates exactly when it finds the object, always writing the desired object; it issues the stamp, then the lookup, then at most one write, and stops after the stamp when it fails and after the lookup when it errs; it succeeds exactly when the stamp, the lookup and the write succeed, and then the desired object is stored; a failed step changes nothing and reports the error of the call that failed: the stamp's, the lookup's or the write's. |
| Reconciler.IngressStep | controllers/app_controller.go:160-189 | The Ingress step creates an absent Ingress and updates a present one exactly when ingress is on; it issues the stamp, then the lookup, then at most one write, and stops after the stamp when it fails and after the lookup when it errs or ingress is off; with ingress off an absent Ingress yields NotFound as written and success when corrected, a present one yields success; stamp, lookup and write errors are reported as they are; a write that succeeds with ingress on leaves the desired Ingress stored and the step succeeds; the store gains at most the desired Ingress. |
| Reconciler.ConvergeAll | controllers/app_controller.go:81-191 | After the App is found: nothing is deleted, every changed object is the desired one owned by the App, a later kind is touched only once every earlier kind is in place, success leaves the Deployment and the Service in place, with services off the Ingress is never touched, and the Ingress changes only when both flags are on. |
| Reconciler.ReconcileWith | controllers/app_controller.go:60-192 | The App lookup comes first; a missing App ends the pass in success and any other lookup error ends it with that error, both with no other call and no change; no pass deletes anything, and every object it changes is the desired one owned by the App. |
| Properties.StepsInOrder | controllers/app_controller.go:81-168 | After the App lookup, the calls run Deployment, then Service, then Ingress, each kind's calls together. |
| Properties.FixedOrder | controllers/app_controller.go:60-168 | Every pass issues its calls in the fixed order App, Deployment, Service, Ingress. |
| Properties.FirstFailureEndsPass | controllers/app_controller.go:88-149 | A failing Deployment step ends the pass with its error, nothing written and no Service or Ingress call; a failing Service step ends it with its error, only the Deployment written and no Ingress call. |
| Properties.DeploymentCreateOrUpdate | controllers/app_controller.go:93-121 | Once stamped, the Deployment is written exactly once per pass: created when the lookup reports NotFound, updated when it finds one, whatever that one holds; nothing is written after another lookup error. |
| Properties.ServiceCreateOrUpdate | controllers/app_controller.go:123-149 | Once the Deployment is in place the Service is always handled, whatever the flags; it is created when absent and updated when present, exactly once. |
| Properties.IngressSkippedWithoutServices | controllers/app_controller.go:156-158 | With services off no Ingress call is made, whatever the ingress flag, and the pass succeeds exactly when the Deployment and Service steps do. |
| Properties.IngressEndsPass | controllers/app_controller.go:160-191 | A pass that reaches the Ingress step ends with that step's result, store and Ingress writes. |
| Properties.IngressAbsent | controllers/app_controller.go:168-178 | An absent Ingress is created exactly when ingress is on; with ingress off nothing is written and the pass reports NotFound. |
| Properties.IngressPresent | controllers/app_controller.go:179-191 | A present Ingress is updated exactly when ingress is on; the pass succeeds when ingress is off or the update succeeds; with ingress off the Ingress is left as it is. |
| Properties.HealthyPass | controllers/app_controller.go:60-192 | When every call succeeds, one pass leaves the desired Deployment and Service, the desired Ingress when both flags are on and the old Ingress (or none) otherwise, and fails exactly when services are on, ingress is off and no Ingress exists. |
| Properties.IngressStepRepeats | controllers/app_controller.go:160-189 | Repeating the Ingress step from the store it left behind ends the same way and changes nothing. |
| Properties.StepsRepeat | controllers/app_controller.go:81-191 | Repeating the steps after the App lookup from the store they left behind ends the same way and changes nothing. |
| Properties.SecondPassChangesNothing | controllers/app_controller.go:60-192 | A second pass with the same App and the same cluster behaviour reports the same result and leaves the store exactly as the first left it. |
| Properties.SecondPassStillUpdates | controllers/app_controller.go:107-121 | The second pass on a cluster where every call succeeds still issues one Update per object the first pass left in place: the Deployment, the Service, and the Ingress when both flags are on. |
| Findings.AbsentIngressReportedAsError | controllers/app_controller.go:171-177 | On an empty, healthy cluster an App with services on and ingress off gets its Deployment and Service created and the pass reports NotFound. |
| Findings.CorrectedHealthyPassSucceeds | controllers/app_controller.go:168-178 | With the absent, switched-off Ingress treated as done, every pass on a healthy cluster succeeds. |
| Findings.CorrectionOnlyChangesResult | controllers/app_controller.go:168-178 | The corrected pass issues the same calls and leaves the same store; its result differs exactly when the App is found with services on and ingress off, the Deployment and Service steps succeed, the Ingress stamp succeeds and the Ingress lookup reports NotFound, and there the program's NotFound becomes success. |

## Left out

- `SetupWithManager` (lines 195-204): registers the watches with the controller manager; no decision logic.
- The RBAC markers (lines 44-49): code-generation annotations.
- `utils.NewDeployment`, `utils.NewService`, `utils.NewIngress`: the templates are not part of this model. An object is represented by the App spec it was rendered from (`Cluster.Object.renderedFrom`).
- `controllerutil.SetControllerReference`: only its outcome is modelled (an oracle value per kind); its check for an existing controller owner is not.
- The Kubernetes client, its cache, context cancellation and the `ctrl.Result` value (always empty): the client is the oracle, cancellation shows up as an arbitrary call error, and the result carries no information.
- Concurrent passes for different Apps and the retry of failed passes: owned by controller-runtime.
- `fmt.Println`, `fmt.Printf` and `logger.Error`: logging with no effect on the result.
- The oracle gives one write outcome per kind, used for the create and the update alike; whether the API server accepts an update of a freshly rendered object (one without a resource version) is part of that outcome.
- Properties.StepsRepeat and Properties.SecondPassChangesNothing: the store keeps exactly the object sent, with no resource version, defaulted fields or status, so the unconditional Update of a second pass changes nothing in the model. In the cluster each such Update is a write event that re-queues the App through the `Owns` watches (lines 195-204), the repeated triggering the comment at lines 110-117 calls a bug; event delivery is not modelled. `Properties.SecondPassStillUpdates` shows the Updates are still issued.
- The store only holds objects under the App's own name; objects under other names are never read or written by the pass.

## Findings

| source | as written | input that shows it | evidently intended | confidence | as-written member | corrected member |
|---|---|---|---|---|---|---|
| controllers/app_controller.go:171-177 | An absent Ingress with `EnableIngress` off falls into the else branch meant for lookup errors and returns the NotFound error | App with `EnableService` true and `EnableIngress` false on a cluster with no Ingress where every call succeeds | The absent Ingress is left alone and the pass succeeds, so the App is not retried forever | high; not executed | Findings.AbsentIngressReportedAsError | Findings.CorrectedHealthyPassSucceeds |

The corrected reading is `Reconciler.ReconcileCorrected`, the pass under the
`Skip` policy of `Reconciler.AbsentIngress`. Every lemma in `Properties`
that takes a policy holds for both readings; `Properties.IngressAbsent`,
`Properties.HealthyPass` and `Properties.SecondPassStillUpdates` describe the
program as written.

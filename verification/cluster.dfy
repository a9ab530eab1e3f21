/** The cluster as one reconciliation of one App sees it: the App itself, the
    three objects that share its namespaced name, and the outcomes of the
    calls the reconciler makes.

    The real client, its cache and the network are not modelled, and nor is
    the local check that stamps the owner reference. Their behaviour enters
    as an oracle (`Env`): whether the App lookup succeeds, and per dependent
    kind whether stamping the owner reference succeeds,
    whether the lookup fails for a reason other than absence, and whether the
    create or update call succeeds.
 */
module Cluster {

  datatype Option<T> = None | Some(value: T)

  /** The three kinds of object an App owns, in the order the reconciler
      handles them. */
  datatype Kind = Deployment | Service | Ingress

  /** A namespaced name. An App and the objects it owns share one. */
  datatype Key = Key(name: string, namespace: string)

  /** The part of an App the reconciler and the templates read. */
  datatype AppSpec = AppSpec(replicas: int, image: string, enableService: bool, enableIngress: bool)

  datatype App = App(key: Key, spec: AppSpec)

  /** A dependent object. The templates that render it are not modelled: an
      object is identified by the App spec it was rendered from, and carries
      the controller owner reference stamped on it, if any. */
  datatype Object = Object(kind: Kind, key: Key, renderedFrom: AppSpec, controller: Option<Key>)

  /** The errors the reconciler can see. `NotFound` is the only one it
      inspects; every other error is passed on as it is. */
  datatype Error = NotFound | AlreadyOwned | ApiFailure(reason: string)

  /** The objects that currently exist under the App's namespaced name. */
  type Store = map<Kind, Object>

  datatype Outcome = Ok | Fail(error: Error)

  /** What happens to the calls about one dependent kind: the outcome of
      stamping the owner reference (a local check against the scheme, not a
      request to the API server), a lookup failure that
      overrides the store (a cache or transport fault; `None` when the
      lookup answers from the store), and the outcome of the create or
      update call. */
  datatype KindOracle = KindOracle(ownerRef: Outcome, getFault: Option<Error>, write: Outcome)

  /** The outcome of looking up the App being reconciled. An App that does
      not exist is `AppFailed(NotFound)`. */
  datatype AppLookup = AppFound(app: App) | AppFailed(error: Error)

  datatype Env = Env(app: AppLookup, deployment: KindOracle, service: KindOracle, ingress: KindOracle)
  {
    function OracleFor(k: Kind): KindOracle
    {
      match k
      case Deployment => deployment
      case Service => service
      case Ingress => ingress
    }
  }

  /** The result of a lookup of one dependent object: found, or an error,
      which is `NotFound` when no such object exists. */
  datatype Observation = Found(obj: Object) | GetFailed(error: Error)

  /** Looks up the object of kind `k`: the oracle's fault if it injects
      one, otherwise what the store holds. */
  function Observe(k: Kind, oracle: KindOracle, st: Store): (o: Observation)
    ensures oracle.getFault.None? ==> (o.Found? <==> k in st)
    ensures o.Found? ==> k in st && o.obj == st[k]
    ensures oracle.getFault.Some? ==> o == GetFailed(oracle.getFault.value)
    ensures oracle.getFault.None? && k !in st ==> o == GetFailed(NotFound)
  {
    match oracle.getFault
    case Some(e) => GetFailed(e)
    case None => if k in st then Found(st[k]) else GetFailed(NotFound)
  }

  /** A lookup that either found the object or reported it absent, the two
      cases after which the reconciler goes on to write. */
  predicate Answered(o: Observation)
  {
    o.Found? || o == GetFailed(NotFound)
  }

  /** A lookup of kind `k` only depends on the entry for `k`. */
  lemma ObserveOtherKind(k: Kind, j: Kind, oracle: KindOracle, st: Store, obj: Object)
    requires j != k
    ensures Observe(k, oracle, st[j := obj]) == Observe(k, oracle, st)
  {
  }

  /** The oracle that never fails: every call succeeds and every lookup
      answers from the store. */
  predicate Healthy(env: Env)
  {
    forall k: Kind :: env.OracleFor(k) == KindOracle(Ok, None, Ok)
  }
}

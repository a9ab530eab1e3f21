/** The calls a reconciliation pass makes, in order, and the views of such
    a trace the properties are stated in. */
module Trace {
  import opened Cluster

  datatype Call =
    | GetApp
    | SetOwner(kind: Kind)
    | Get(kind: Kind)
    | Create(obj: Object)
    | Update(obj: Object)
  {
    predicate IsWrite()
    {
      Create? || Update?
    }

    /** The dependent kind the call is about; none for the App lookup. */
    function Subject(): Option<Kind>
    {
      match this
      case GetApp => None
      case SetOwner(k) => Some(k)
      case Get(k) => Some(k)
      case Create(o) => Some(o.kind)
      case Update(o) => Some(o.kind)
    }

    /** Position in the fixed handling order: the App first, then
        Deployment, Service, Ingress. */
    function Rank(): nat
    {
      match Subject()
      case None => 0
      case Some(k) => KindRank(k)
    }
  }

  function KindRank(k: Kind): nat
  {
    match k
    case Deployment => 1
    case Service => 2
    case Ingress => 3
  }

  /** True when some call in `calls` is about kind `k`. */
  predicate Touches(calls: seq<Call>, k: Kind)
  {
    exists i :: 0 <= i < |calls| && calls[i].Subject() == Some(k)
  }

  /** True when every call is about kind `k`. */
  predicate OnlyAbout(calls: seq<Call>, k: Kind)
  {
    forall i :: 0 <= i < |calls| ==> calls[i].Subject() == Some(k)
  }

  /** Calls appear grouped by kind, in the fixed handling order. */
  predicate InOrder(calls: seq<Call>)
  {
    forall i, j :: 0 <= i < j < |calls| ==> calls[i].Rank() <= calls[j].Rank()
  }

  /** The create and update calls about kind `k`, in the order issued. */
  function WritesOn(calls: seq<Call>, k: Kind): (w: seq<Call>)
    ensures |w| <= |calls|
    ensures forall i :: 0 <= i < |w| ==> w[i].IsWrite() && w[i].Subject() == Some(k)
    ensures w != [] ==> Touches(calls, k)
  {
    if calls == [] then []
    else
      var rest := WritesOn(calls[1..], k);
      assert rest != [] ==> Touches(calls, k) by {
        if rest != [] {
          var i :| 0 <= i < |calls[1..]| && calls[1..][i].Subject() == Some(k);
          assert calls[i + 1].Subject() == Some(k);
        }
      }
      if calls[0].IsWrite() && calls[0].Subject() == Some(k) then [calls[0]] + rest else rest
  }

  lemma {:induction false} WritesOnAppend(a: seq<Call>, b: seq<Call>, k: Kind)
    ensures WritesOn(a + b, k) == WritesOn(a, k) + WritesOn(b, k)
  {
    if a == [] {
      assert a + b == b;
    } else {
      assert (a + b)[1..] == a[1..] + b;
      WritesOnAppend(a[1..], b, k);
    }
  }

  /** Calls that never mention `k` write nothing of kind `k`. */
  lemma WritesOnUntouched(calls: seq<Call>, k: Kind)
    requires !Touches(calls, k)
    ensures WritesOn(calls, k) == []
  {
  }

  /** When every call is about `k`, the writes on `k` are all the writes,
      and a trace of at most one write has that write as its last call. */
  lemma {:induction false} WritesOnOwnKind(calls: seq<Call>, k: Kind)
    requires OnlyAbout(calls, k)
    requires |calls| > 0 && calls[|calls| - 1].IsWrite()
    requires forall i :: 0 <= i < |calls| - 1 ==> !calls[i].IsWrite()
    ensures WritesOn(calls, k) == [calls[|calls| - 1]]
  {
    if |calls| == 1 {
      assert calls[1..] == [];
    } else {
      WritesOnOwnKind(calls[1..], k);
    }
  }

  /** Writes of no call. */
  lemma {:induction false} WritesOnNoWrite(calls: seq<Call>, k: Kind)
    requires forall i :: 0 <= i < |calls| ==> !calls[i].IsWrite()
    ensures WritesOn(calls, k) == []
  {
    if calls != [] {
      WritesOnNoWrite(calls[1..], k);
    }
  }

  /** Two ordered traces, the first wholly before the second, make an
      ordered trace. */
  lemma InOrderAppend(a: seq<Call>, b: seq<Call>, m: nat)
    requires InOrder(a) && InOrder(b)
    requires forall i :: 0 <= i < |a| ==> a[i].Rank() <= m
    requires forall j :: 0 <= j < |b| ==> m <= b[j].Rank()
    ensures InOrder(a + b)
  {
  }

  lemma TouchesAppend(a: seq<Call>, b: seq<Call>, k: Kind)
    ensures Touches(a + b, k) <==> Touches(a, k) || Touches(b, k)
  {
    if Touches(a + b, k) {
      var i :| 0 <= i < |a + b| && (a + b)[i].Subject() == Some(k);
      if i < |a| {
        assert a[i] == (a + b)[i];
      } else {
        assert b[i - |a|] == (a + b)[i];
      }
    }
    if Touches(a, k) {
      var i :| 0 <= i < |a| && a[i].Subject() == Some(k);
      assert (a + b)[i] == a[i];
    }
    if Touches(b, k) {
      var i :| 0 <= i < |b| && b[i].Subject() == Some(k);
      assert (a + b)[|a| + i] == b[i];
    }
  }

  /** A trace about one kind touches no other. */
  lemma OnlyAboutTouches(calls: seq<Call>, k: Kind, j: Kind)
    requires OnlyAbout(calls, k) && j != k
    ensures !Touches(calls, j)
  {
  }
}

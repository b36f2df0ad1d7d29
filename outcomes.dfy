/** Outcomes of asynchronous steps, as `Promise.allSettled` reports them, and the
    optional values the scanners return. */
module Outcomes {

  datatype Option<T> = None | Some(value: T)

  /** Why a promise was rejected or a call threw: the error class and its message. */
  datatype Reason = TypeError(message: string) | Error(message: string)

  /** One settled promise: `{status: 'fulfilled', value}` or `{status: 'rejected', reason}`. */
  datatype Settled<T> = Fulfilled(value: T) | Rejected(reason: Reason)

  /** `results.filter(r => r.status === 'fulfilled').map(r => r.value)`, kept in input order. */
  function FulfilledValues<T>(rs: seq<Settled<T>>): (vs: seq<T>)
    ensures |vs| <= |rs|
    ensures vs == [] <==> forall i :: 0 <= i < |rs| ==> rs[i].Rejected?
  {
    if rs == [] then []
    else
      var init := FulfilledValues(rs[..|rs| - 1]);
      var last := rs[|rs| - 1];
      assert rs == rs[..|rs| - 1] + [last];
      if last.Fulfilled? then init + [last.value] else init
  }

  /** The kept values are exactly the fulfilled ones: each comes from a fulfilled
      result, and no fulfilled result is dropped. */
  lemma {:induction false} FulfilledValuesMembers<T>(rs: seq<Settled<T>>)
    ensures forall k :: 0 <= k < |FulfilledValues(rs)| ==> Fulfilled(FulfilledValues(rs)[k]) in rs
    ensures forall i :: 0 <= i < |rs| && rs[i].Fulfilled? ==> rs[i].value in FulfilledValues(rs)
  {
    if rs != [] {
      var pre := rs[..|rs| - 1];
      FulfilledValuesMembers(pre);
      assert rs == pre + [rs[|rs| - 1]];
    }
  }

  /** The indices of the fulfilled results, in increasing order. */
  function FulfilledIndices<T>(rs: seq<Settled<T>>): (idx: seq<nat>)
    ensures forall j :: 0 <= j < |idx| ==> idx[j] < |rs| && rs[idx[j]].Fulfilled?
  {
    if rs == [] then []
    else
      var n := |rs| - 1;
      FulfilledIndices(rs[..n]) + (if rs[n].Fulfilled? then [n] else [])
  }

  /** The last result adds its index after those of the others, all smaller. */
  lemma FulfilledIndicesStep<T>(rs: seq<Settled<T>>)
    requires rs != []
    ensures var n := |rs| - 1; var idx, ip := FulfilledIndices(rs), FulfilledIndices(rs[..n]);
      |ip| <= |idx| <= |ip| + 1 && (forall j :: 0 <= j < |ip| ==> idx[j] == ip[j] < n)
      && (|idx| == |ip| + 1 <==> rs[n].Fulfilled?) && (|idx| == |ip| + 1 ==> idx[|ip|] == n)
  {
  }

  /** The indices are increasing, ... */
  lemma {:induction false} FulfilledIndicesIncreasing<T>(rs: seq<Settled<T>>)
    ensures forall j, k :: 0 <= j < k < |FulfilledIndices(rs)| ==> FulfilledIndices(rs)[j] < FulfilledIndices(rs)[k]
  {
    if rs != [] {
      var n := |rs| - 1;
      var idx, ip := FulfilledIndices(rs), FulfilledIndices(rs[..n]);
      FulfilledIndicesIncreasing(rs[..n]);
      FulfilledIndicesStep(rs);
      forall j, k | 0 <= j < k < |idx|
        ensures idx[j] < idx[k]
      {
        assert idx[j] == ip[j];
        if k < |ip| {
          assert idx[k] == ip[k];
        } else {
          assert idx[k] == n;
        }
      }
    }
  }

  /** Where a fulfilled result's index sits among them. */
  lemma {:induction false} FulfilledPosition<T>(rs: seq<Settled<T>>, i: nat) returns (j: nat)
    requires i < |rs| && rs[i].Fulfilled?
    ensures j < |FulfilledIndices(rs)| && FulfilledIndices(rs)[j] == i
  {
    var n := |rs| - 1;
    FulfilledIndicesStep(rs);
    if i < n {
      assert rs[..n][i] == rs[i];
      j := FulfilledPosition(rs[..n], i);
    } else {
      j := |FulfilledIndices(rs[..n])|;
    }
  }

  /** Every fulfilled result's index is listed. */
  lemma FulfilledIndicesComplete<T>(rs: seq<Settled<T>>)
    ensures forall i :: 0 <= i < |rs| && rs[i].Fulfilled? ==> i in FulfilledIndices(rs)
  {
    forall i | 0 <= i < |rs| && rs[i].Fulfilled?
      ensures i in FulfilledIndices(rs)
    {
      var j := FulfilledPosition(rs, i);
    }
  }

  /** The kept values are the fulfilled results' values in input order: the j-th kept
      value is the value of the j-th fulfilled result. */
  lemma {:induction false} FulfilledValuesAt<T>(rs: seq<Settled<T>>)
    ensures |FulfilledValues(rs)| == |FulfilledIndices(rs)|
    ensures forall j :: 0 <= j < |FulfilledValues(rs)| ==> FulfilledValues(rs)[j] == rs[FulfilledIndices(rs)[j]].value
  {
    if rs != [] {
      var n := |rs| - 1;
      var pre := rs[..n];
      FulfilledValuesAt(pre);
      FulfilledIndicesStep(rs);
      var vs, vp := FulfilledValues(rs), FulfilledValues(pre);
      var idx, ip := FulfilledIndices(rs), FulfilledIndices(pre);
      assert vs[..|vp|] == vp;
      forall j | 0 <= j < |vs|
        ensures vs[j] == rs[idx[j]].value
      {
        if j < |vp| {
          assert vs[j] == vp[j] && idx[j] == ip[j];
          assert rs[ip[j]] == pre[ip[j]];
        }
      }
    }
  }
}

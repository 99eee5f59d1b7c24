/**
 * The registration loop of the constructor: for every requested signal, in
 * list order, `::sigaction` installs the trampoline and its return code is
 * tested with `!`, which is true exactly when the call succeeded (0). So
 * the "failed to register" message is logged for every signal that WAS
 * registered and for none that was not.
 */
module Registration {
  import opened Wire
  import opened Signals

  /**
   * The signals whose handler is the trampoline after the loop has run over
   * `sigs`, where `results[i]` is what `::sigaction(sigs[i], ...)` returned.
   */
  function Registered(sigs: seq<int32>, results: seq<int>): set<int32>
    requires |sigs| == |results|
  {
    if sigs == [] then {}
    else
      var last := |sigs| - 1;
      Registered(sigs[..last], results[..last])
      + (if results[last] == 0 then {sigs[last]} else {})
  }

  /** The messages the loop logs over `sigs`, in order. */
  function RegistrationLog(sigs: seq<int32>, results: seq<int>): seq<Diagnostic>
    requires |sigs| == |results|
  {
    if sigs == [] then []
    else
      var last := |sigs| - 1;
      RegistrationLog(sigs[..last], results[..last])
      + (if results[last] == 0 then [RegistrationFailed(sigs[last])] else [])
  }

  /**
   * The loop never stops early: a signal is registered exactly when one of
   * its `sigaction` calls returned 0, whatever happened to the others.
   */
  lemma {:induction false} RegisteredExactly(sigs: seq<int32>, results: seq<int>)
    requires |sigs| == |results|
    ensures Registered(sigs, results)
      == set i | 0 <= i < |sigs| && results[i] == 0 :: sigs[i]
  {
    if sigs != [] {
      var last := |sigs| - 1;
      RegisteredExactly(sigs[..last], results[..last]);
      var before := set i | 0 <= i < last && results[..last][i] == 0 :: sigs[..last][i];
      var all := set i | 0 <= i < |sigs| && results[i] == 0 :: sigs[i];
      forall x | x in all ensures x in before + (if results[last] == 0 then {sigs[last]} else {}) {
        var i :| 0 <= i < |sigs| && results[i] == 0 && x == sigs[i];
        if i < last {
          assert results[..last][i] == 0 && sigs[..last][i] == x;
        }
      }
      forall x | x in before ensures x in all {
        var i :| 0 <= i < last && results[..last][i] == 0 && x == sigs[..last][i];
        assert results[i] == 0 && sigs[i] == x;
      }
    }
  }

  /**
   * A failed registration affects no other signal: a signal whose call
   * succeeded somewhere in the list is registered.
   */
  lemma RegistrationIndependent(sigs: seq<int32>, results: seq<int>, j: int)
    requires |sigs| == |results|
    requires 0 <= j < |sigs| && results[j] == 0
    ensures sigs[j] in Registered(sigs, results)
  {
    RegisteredExactly(sigs, results);
  }

  /** A signal that was not requested is never registered by the bridge. */
  lemma UnrequestedNeverRegistered(sigs: seq<int32>, results: seq<int>, sig: int32)
    requires |sigs| == |results|
    requires sig !in sigs
    ensures sig !in Registered(sigs, results)
  {
    RegisteredExactly(sigs, results);
  }

  /**
   * The inverted test: a "failed to register" message names a signal whose
   * `sigaction` call returned 0, and every such call is followed by one.
   */
  lemma {:induction false} LogOnlyOnSuccess(sigs: seq<int32>, results: seq<int>)
    requires |sigs| == |results|
    ensures forall d :: d in RegistrationLog(sigs, results) ==>
      exists i :: 0 <= i < |sigs| && results[i] == 0 && d == RegistrationFailed(sigs[i])
    ensures forall i :: 0 <= i < |sigs| && results[i] == 0 ==>
      RegistrationFailed(sigs[i]) in RegistrationLog(sigs, results)
  {
    if sigs != [] {
      var last := |sigs| - 1;
      var ss, rs := sigs[..last], results[..last];
      LogOnlyOnSuccess(ss, rs);
      var log := RegistrationLog(sigs, results);
      forall d | d in log
        ensures exists i :: 0 <= i < |sigs| && results[i] == 0 && d == RegistrationFailed(sigs[i])
      {
        if d in RegistrationLog(ss, rs) {
          var i :| 0 <= i < |ss| && rs[i] == 0 && d == RegistrationFailed(ss[i]);
          assert results[i] == 0 && d == RegistrationFailed(sigs[i]);
        } else {
          assert results[last] == 0 && d == RegistrationFailed(sigs[last]);
        }
      }
      forall i | 0 <= i < |sigs| && results[i] == 0
        ensures RegistrationFailed(sigs[i]) in log
      {
        if i < last {
          assert rs[i] == 0 && ss[i] == sigs[i];
        }
      }
    }
  }

  /**
   * The positions in the list whose `sigaction` call returned 0, in
   * increasing order: the order in which the loop meets them.
   */
  function SuccessIndices(results: seq<int>): (r: seq<nat>)
    ensures forall a :: 0 <= a < |r| ==> r[a] < |results| && results[r[a]] == 0
    ensures forall a, b :: 0 <= a < b < |r| ==> r[a] < r[b]
    ensures forall i :: 0 <= i < |results| && results[i] == 0 ==> i in r
  {
    if results == [] then []
    else
      var last := |results| - 1;
      var before := SuccessIndices(results[..last]);
      assert forall i :: 0 <= i < last ==> results[..last][i] == results[i];
      before + (if results[last] == 0 then [last] else [])
  }

  /** The positions whose `sigaction` call returned 0, as a set. */
  function SuccessSet(results: seq<int>): set<int>
  {
    set i | 0 <= i < |results| && results[i] == 0
  }

  lemma SuccessSetStep(results: seq<int>)
    requires results != []
    ensures var last := |results| - 1;
      last !in SuccessSet(results[..last])
      && SuccessSet(results)
         == SuccessSet(results[..last]) + (if results[last] == 0 then {last} else {})
  {
    var last := |results| - 1;
    var rs := results[..last];
    var added: set<int> := if results[last] == 0 then {last} else {};
    forall i | i in SuccessSet(results) ensures i in SuccessSet(rs) + added {
      if i < last {
        assert rs[i] == 0;
      }
    }
    forall i | i in SuccessSet(rs) + added ensures i in SuccessSet(results) {
      if i in SuccessSet(rs) {
        assert results[i] == rs[i];
      }
    }
  }

  /** There is one successful position per call that returned 0. */
  lemma {:induction false} SuccessIndicesCount(results: seq<int>)
    ensures |SuccessIndices(results)| == |SuccessSet(results)|
  {
    if results != [] {
      var last := |results| - 1;
      SuccessIndicesCount(results[..last]);
      SuccessSetStep(results);
    }
  }

  /**
   * The log holds exactly one "failed to register" message per `sigaction`
   * call that returned 0, naming that call's signal, in list order.
   */
  lemma {:induction false} RegistrationLogInOrder(sigs: seq<int32>, results: seq<int>)
    requires |sigs| == |results|
    ensures var log, idx := RegistrationLog(sigs, results), SuccessIndices(results);
      |log| == |idx|
      && forall a :: 0 <= a < |log| ==> log[a] == RegistrationFailed(sigs[idx[a]])
    ensures |RegistrationLog(sigs, results)| == |SuccessSet(results)|
  {
    SuccessIndicesCount(results);
    if sigs != [] {
      var last := |sigs| - 1;
      RegistrationLogInOrder(sigs[..last], results[..last]);
      var log, idx := RegistrationLog(sigs, results), SuccessIndices(results);
      var log', idx' := RegistrationLog(sigs[..last], results[..last]), SuccessIndices(results[..last]);
      forall a | 0 <= a < |log| ensures log[a] == RegistrationFailed(sigs[idx[a]]) {
        if a < |log'| {
          assert log[a] == log'[a] && idx[a] == idx'[a];
          assert sigs[..last][idx'[a]] == sigs[idx'[a]];
        }
      }
    }
  }

  /** ...and when every call fails, the loop logs nothing at all. */
  lemma {:induction false} SilentWhenAllFail(sigs: seq<int32>, results: seq<int>)
    requires |sigs| == |results|
    requires forall i :: 0 <= i < |results| ==> results[i] != 0
    ensures RegistrationLog(sigs, results) == []
    ensures Registered(sigs, results) == {}
  {
    if sigs != [] {
      var last := |sigs| - 1;
      SilentWhenAllFail(sigs[..last], results[..last]);
    }
  }
}

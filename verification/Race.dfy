/**
 The race combinator (`first_where::handler::nth_result` in
 `src/amongoc/nano/first.hpp`). A sub-operation that completes first tests its
 value outside the lock, then updates the shared state under the lock, then, if it
 was the last one, delivers. A schedule is any sequence of operation numbers; each
 occurrence lets that operation take its next step, so every interleaving of the
 completions is the execution of some schedule.
 */
module Race {
  import opened Collections
  import opened Values

  /** The handler's fields, and the calls it makes: stop requests and deliveries. */
  datatype Shared<V> = Shared(
    outstanding: nat, result: Option<(nat, V)>, stops: nat, delivered: seq<(nat, V)>, terminated: bool)

  /** The critical section of `nth_result`; the second component is `nremain`. */
  function Locked<V>(sh: Shared<V>, n: nat, x: V, accepted: bool): (Shared<V>, nat)
    requires sh.outstanding > 0
  {
    var nremain := sh.outstanding - 1;
    if sh.result.None? && accepted
    then (sh.(outstanding := nremain, stops := sh.stops + 1, result := Some((n, x))), nremain)
    else (sh.(outstanding := nremain), nremain)
  }

  /** What follows the unlock: the last completion delivers, or terminates the program. */
  function Unlocked<V>(sh: Shared<V>, nremain: nat): Shared<V> {
    if nremain != 0 then sh
    else
      match sh.result
      case None => sh.(terminated := true)
      case Some(r) => sh.(delivered := sh.delivered + [r])
  }

  class Handler<V> {
    var outstanding: nat
    var result: Option<(nat, V)>
    var stops: nat
    var delivered: seq<(nat, V)>
    var terminated: bool

    constructor (n: nat)
      ensures State() == Shared(n, None, 0, [], false)
    {
      outstanding, result, stops, delivered, terminated := n, None, 0, [], false;
    }

    function State(): Shared<V>
      reads this
    {
      Shared(outstanding, result, stops, delivered, terminated)
    }

    /** Between locking and unlocking the mutex. */
    method ResolveLocked(n: nat, x: V, accepted: bool) returns (nremain: nat)
      requires outstanding > 0
      modifies this
      ensures (State(), nremain) == old(Locked(State(), n, x, accepted))
    {
      outstanding := outstanding - 1;
      nremain := outstanding;
      if result.None? && accepted {
        stops := stops + 1;
        result := Some((n, x));
      }
    }

    method AfterUnlock(nremain: nat)
      modifies this
      ensures State() == old(Unlocked(State(), nremain))
    {
      if nremain == 0 {
        match result {
          case None => terminated := true;
          case Some(r) => delivered := delivered + [r];
        }
      }
    }
  }

  // ----- interleavings

  /** Where an operation stands; `nremain` is the local variable set under the lock. */
  datatype Phase = Running | Tested(accepted: bool) | Resolved(nremain: nat) | Finished(nremain: nat)

  /** The values of the sub-operations and what the predicate says of them. */
  datatype Entrants<V> = Entrants(values: seq<V>, accepts: seq<bool>) {
    ghost predicate Valid() {
      |values| == |accepts| > 0
    }
  }

  /** All threads, the shared state, and the order in which the lock was taken so far. */
  datatype World<V> = World(phases: seq<Phase>, shared: Shared<V>, order: seq<nat>)

  function Start<V>(r: Entrants<V>): World<V> {
    World(seq(|r.values|, _ => Running), Shared(|r.values|, None, 0, [], false), [])
  }

  /** The next step of operation `n`; a program that was terminated takes no more steps. */
  function Step<V>(r: Entrants<V>, w: World<V>, n: nat): World<V>
    requires r.Valid() && |w.phases| == |r.values|
  {
    if n >= |r.values| || w.shared.terminated then w
    else
      match w.phases[n]
      case Running => w.(phases := w.phases[n := Tested(r.accepts[n])])
      case Tested(accepted) =>
        if w.shared.outstanding == 0 then w
        else
          var (shared, nremain) := Locked(w.shared, n, r.values[n], accepted);
          World(w.phases[n := Resolved(nremain)], shared, w.order + [n])
      case Resolved(nremain) =>
        World(w.phases[n := Finished(nremain)], Unlocked(w.shared, nremain), w.order)
      case Finished(_) => w
  }

  function Exec<V>(r: Entrants<V>, schedule: seq<nat>): (w: World<V>)
    requires r.Valid()
    ensures |w.phases| == |r.values|
  {
    if schedule == [] then Start(r)
    else Step(r, Exec(r, schedule[..|schedule| - 1]), schedule[|schedule| - 1])
  }

  /** The first operation in the order whose value the predicate accepts. */
  function FirstAccepted(order: seq<nat>, accepts: seq<bool>): Option<nat>
    requires forall i :: 0 <= i < |order| ==> order[i] < |accepts|
  {
    if order == [] then None
    else
      var before := FirstAccepted(order[..|order| - 1], accepts);
      if before.Some? then before
      else if accepts[order[|order| - 1]] then Some(order[|order| - 1]) else None
  }

  lemma {:induction false} FirstAcceptedMeaning(order: seq<nat>, accepts: seq<bool>)
    requires forall i :: 0 <= i < |order| ==> order[i] < |accepts|
    ensures FirstAccepted(order, accepts).None? <==> forall i :: 0 <= i < |order| ==> !accepts[order[i]]
    ensures FirstAccepted(order, accepts).Some? ==>
      exists i :: 0 <= i < |order| && FirstAccepted(order, accepts) == Some(order[i]) && accepts[order[i]]
        && forall j :: 0 <= j < i ==> !accepts[order[j]]
  {
    if order != [] {
      var n := |order| - 1;
      FirstAcceptedMeaning(order[..n], accepts);
      if FirstAccepted(order[..n], accepts).Some? {
        var i :| 0 <= i < n && FirstAccepted(order[..n], accepts) == Some(order[..n][i]) && accepts[order[..n][i]]
          && forall j :: 0 <= j < i ==> !accepts[order[..n][j]];
        assert order[..n][i] == order[i];
        assert forall j :: 0 <= j < i ==> order[..n][j] == order[j];
      } else {
        assert forall j :: 0 <= j < n ==> order[..n][j] == order[j];
      }
    }
  }

  // ----- the invariant

  /** An operation has resolved when it has been through the lock. */
  predicate IsResolved(p: Phase) {
    p.Resolved? || p.Finished?
  }

  /** A resolved operation stands where its `nremain` says in the lock order. */
  ghost predicate Seated<V>(r: Entrants<V>, w: World<V>, n: nat)
    requires n < |w.phases|
  {
    IsResolved(w.phases[n]) ==>
      && |r.values| - 1 - |w.order| < w.phases[n].nremain < |r.values|
      && w.order[|r.values| - 1 - w.phases[n].nremain] == n
  }

  /** The lock order and the `nremain` values of the resolved operations are inverse to each other. */
  ghost predicate OrderOk<V>(r: Entrants<V>, w: World<V>) {
    && |w.phases| == |r.values|
    && |w.order| + w.shared.outstanding == |r.values|
    && (forall i :: 0 <= i < |w.order| ==>
          && w.order[i] < |r.values|
          && IsResolved(w.phases[w.order[i]]) && w.phases[w.order[i]].nremain == |r.values| - 1 - i)
    && (forall n {:trigger Seated(r, w, n)} :: 0 <= n < |r.values| ==> Seated(r, w, n))
  }

  ghost predicate TestsOk<V>(r: Entrants<V>, w: World<V>)
    requires r.Valid() && OrderOk(r, w)
  {
    forall n :: 0 <= n < |r.values| && w.phases[n].Tested? ==> w.phases[n].accepted == r.accepts[n]
  }

  /** The winner is the first acceptance in lock order, and stop was requested once for it. */
  ghost predicate WinnerOk<V>(r: Entrants<V>, w: World<V>)
    requires r.Valid() && OrderOk(r, w)
  {
    match FirstAccepted(w.order, r.accepts)
    case None => w.shared.result.None? && w.shared.stops == 0
    case Some(n) => n < |r.values| && w.shared.result == Some((n, r.values[n])) && w.shared.stops == 1
  }

  /** The operation that saw no others outstanding has delivered. */
  ghost predicate LastFinished<V>(w: World<V>) {
    exists n :: 0 <= n < |w.phases| && w.phases[n] == Finished(0)
  }

  ghost predicate DeliveryOk<V>(r: Entrants<V>, w: World<V>)
    requires r.Valid() && OrderOk(r, w)
  {
    && w.shared.delivered == (if LastFinished(w) && w.shared.result.Some? then [w.shared.result.value] else [])
    && (w.shared.terminated <==> LastFinished(w) && w.shared.result.None?)
  }

  ghost predicate Inv<V>(r: Entrants<V>, w: World<V>) {
    r.Valid() && OrderOk(r, w) && TestsOk(r, w) && WinnerOk(r, w) && DeliveryOk(r, w)
  }

  // ----- counting

  /** While an operation has not resolved, the count of outstanding ones is positive. */
  lemma SomeOutstanding<V>(r: Entrants<V>, w: World<V>, n: nat)
    requires OrderOk(r, w) && n < |r.values| && !IsResolved(w.phases[n])
    ensures w.shared.outstanding > 0
  {
    Distinct(r, w);
    Bounded(w.order, |r.values|, n) by {
      forall i | 0 <= i < |w.order|
        ensures w.order[i] < |r.values| && w.order[i] != n
      {
        assert IsResolved(w.phases[w.order[i]]);
      }
    }
  }

  lemma Distinct<V>(r: Entrants<V>, w: World<V>)
    requires OrderOk(r, w)
    ensures forall i, j :: 0 <= i < j < |w.order| ==> w.order[i] != w.order[j]
  {
    forall i, j | 0 <= i < j < |w.order|
      ensures w.order[i] != w.order[j]
    {
      assert w.phases[w.order[i]].nremain != w.phases[w.order[j]].nremain;
    }
  }

  lemma Bounded(order: seq<nat>, bound: nat, n: nat)
    requires n < bound && forall i :: 0 <= i < |order| ==> order[i] < bound && order[i] != n
    requires forall i, j :: 0 <= i < j < |order| ==> order[i] != order[j]
    ensures |order| < bound
  {
    ElementsSize(order);
    SubsetSize(Elements(order), Below(bound) - {n});
  }

  /** Once all have resolved, it is zero. */
  lemma NoneOutstanding<V>(r: Entrants<V>, w: World<V>)
    requires OrderOk(r, w)
    requires forall n :: 0 <= n < |r.values| ==> IsResolved(w.phases[n])
    ensures w.shared.outstanding == 0
  {
    forall n | 0 <= n < |r.values|
      ensures n in w.order
    {
      assert IsResolved(w.phases[n]) && Seated(r, w, n);
    }
    ElementsSize(w.order);
    SubsetSize(Below(|r.values|), Elements(w.order));
  }

  // ----- every step keeps the invariant

  lemma InvTest<V>(r: Entrants<V>, w: World<V>, n: nat)
    requires Inv(r, w) && n < |r.values| && w.phases[n].Running? && !w.shared.terminated
    ensures Inv(r, Step(r, w, n))
  {
    var w' := Step(r, w, n);
    TestOrder(r, w, n);
    if m :| 0 <= m < |w.phases| && w.phases[m] == Finished(0) {
      assert w'.phases[m] == Finished(0);
    }
  }

  lemma TestOrder<V>(r: Entrants<V>, w: World<V>, n: nat)
    requires r.Valid() && OrderOk(r, w) && n < |r.values| && w.phases[n].Running? && !w.shared.terminated
    ensures OrderOk(r, Step(r, w, n))
  {
    var w' := Step(r, w, n);
    forall k | 0 <= k < |r.values|
      ensures Seated(r, w', k)
    {
      assert Seated(r, w, k);
    }
  }

  lemma LockOrder<V>(r: Entrants<V>, w: World<V>, n: nat)
    requires r.Valid() && OrderOk(r, w) && n < |r.values| && w.phases[n].Tested? && !w.shared.terminated
    ensures w.shared.outstanding > 0 && OrderOk(r, Step(r, w, n))
  {
    SomeOutstanding(r, w, n);
    var w' := Step(r, w, n);
    forall k | 0 <= k < |r.values|
      ensures Seated(r, w', k)
    {
      assert Seated(r, w, k);
    }
  }

  lemma InvLock<V>(r: Entrants<V>, w: World<V>, n: nat)
    requires Inv(r, w) && n < |r.values| && w.phases[n].Tested? && !w.shared.terminated
    ensures w.shared.outstanding > 0
    ensures Inv(r, Step(r, w, n))
  {
    LockOrder(r, w, n);
    var w' := Step(r, w, n);
    assert w'.order[..|w'.order| - 1] == w.order;
    assert w'.order[|w.order|] == n;
    forall m | 0 <= m < |w.phases|
      ensures w.phases[m] != Finished(0) && w'.phases[m] != Finished(0)
    {
      assert Seated(r, w, m);
    }
  }

  lemma InvUnlock<V>(r: Entrants<V>, w: World<V>, n: nat)
    requires Inv(r, w) && n < |r.values| && w.phases[n].Resolved? && !w.shared.terminated
    ensures Inv(r, Step(r, w, n))
  {
    var w' := Step(r, w, n);
    UnlockOrder(r, w, n);
    assert forall k :: 0 <= k < |w.phases| && k != n ==> w'.phases[k] == w.phases[k];
    hide OrderOk, FirstAccepted;
    if w.phases[n].nremain != 0 {
      assert w'.shared == w.shared;
    }
  }

  lemma UnlockKeepsOrder<V>(r: Entrants<V>, w: World<V>, n: nat)
    requires r.Valid() && OrderOk(r, w) && n < |r.values| && w.phases[n].Resolved? && !w.shared.terminated
    ensures OrderOk(r, Step(r, w, n))
  {
    var w' := Step(r, w, n);
    forall k | 0 <= k < |r.values|
      ensures Seated(r, w', k)
    {
      assert Seated(r, w, k);
    }
  }

  lemma UnlockOrder<V>(r: Entrants<V>, w: World<V>, n: nat)
    requires r.Valid() && OrderOk(r, w) && n < |r.values| && w.phases[n].Resolved? && !w.shared.terminated
    ensures var w' := Step(r, w, n);
      && OrderOk(r, w')
      && w'.order == w.order
      && (if w.phases[n].nremain == 0 then !LastFinished(w) && LastFinished(w')
          else LastFinished(w') <==> LastFinished(w))
  {
    UnlockKeepsOrder(r, w, n);
    var w' := Step(r, w, n);
    assert Seated(r, w, n);
    if w.phases[n].nremain == 0 {
      assert w'.phases[n] == Finished(0);
      forall m | 0 <= m < |w.phases| && m != n
        ensures w.phases[m] != Finished(0)
      {
        assert Seated(r, w, m);
      }
    } else if m :| 0 <= m < |w.phases| && w.phases[m] == Finished(0) {
      assert w'.phases[m] == Finished(0);
    }
  }

  lemma {:induction false} InvAlways<V>(r: Entrants<V>, schedule: seq<nat>)
    requires r.Valid()
    ensures Inv(r, Exec(r, schedule))
  {
    if schedule != [] {
      var k := |schedule| - 1;
      InvAlways(r, schedule[..k]);
      var w, n := Exec(r, schedule[..k]), schedule[k];
      if n < |r.values| && !w.shared.terminated {
        match w.phases[n]
        case Running => InvTest(r, w, n);
        case Tested(_) => InvLock(r, w, n);
        case Resolved(_) => InvUnlock(r, w, n);
        case Finished(_) =>
      }
    }
  }

  // ----- the guarantees

  /** Stop is requested once something accepted has resolved. */
  lemma StopsMeaning<V>(r: Entrants<V>, w: World<V>)
    requires Inv(r, w)
    ensures w.shared.stops ==
      if exists n :: 0 <= n < |r.values| && IsResolved(w.phases[n]) && r.accepts[n] then 1 else 0
  {
    hide DeliveryOk, TestsOk, FirstAccepted;
    FirstAcceptedMeaning(w.order, r.accepts);
    if n :| 0 <= n < |r.values| && IsResolved(w.phases[n]) && r.accepts[n] {
      assert Seated(r, w, n);
    }
  }

  /**
   In every interleaving: the receiver is invoked at most once, only after every
   sub-operation has resolved, with the value of the first accepted completion in
   lock order; and stop has been requested exactly once if some resolved value was
   accepted, else not at all.
   */
  lemma RaceSafety<V>(r: Entrants<V>, schedule: seq<nat>)
    requires r.Valid()
    ensures var w := Exec(r, schedule);
      && OrderOk(r, w)
      && |w.shared.delivered| <= 1
      && (w.shared.delivered != [] ==>
            && (forall n :: 0 <= n < |r.values| ==> IsResolved(w.phases[n]))
            && exists n :: n < |r.values| && FirstAccepted(w.order, r.accepts) == Some(n)
                 && w.shared.delivered == [(n, r.values[n])])
      && w.shared.stops == (if exists n :: 0 <= n < |r.values| && IsResolved(w.phases[n]) && r.accepts[n] then 1 else 0)
  {
    var w := Exec(r, schedule);
    InvAlways(r, schedule);
    StopsMeaning(r, w);
    if w.shared.delivered != [] {
      var last :| 0 <= last < |w.phases| && w.phases[last] == Finished(0);
      assert Seated(r, w, last);
      forall n | 0 <= n < |r.values|
        ensures IsResolved(w.phases[n])
      {
        if !IsResolved(w.phases[n]) {
          SomeOutstanding(r, w, n);
        }
      }
    }
  }

  /** Every complete run with an acceptance delivers; without one the program was terminated. */
  lemma RaceCompletes<V>(r: Entrants<V>, schedule: seq<nat>)
    requires r.Valid()
    requires forall n :: 0 <= n < |r.values| ==> Exec(r, schedule).phases[n].Finished?
    ensures var w := Exec(r, schedule);
      if exists n :: 0 <= n < |r.values| && r.accepts[n]
      then |w.shared.delivered| == 1 && !w.shared.terminated
      else w.shared.delivered == [] && w.shared.terminated
  {
    var w := Exec(r, schedule);
    InvAlways(r, schedule);
    StopsMeaning(r, w);
    NoneOutstanding(r, w);
    assert w.phases[w.order[|w.order| - 1]] == Finished(0);
  }
}

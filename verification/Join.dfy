/**
 The join combinator (`when_all::handler::nth_result` and `_finish` in
 `src/amongoc/nano/all.hpp`). A completion stores its value in its own slot, then
 decrements an atomic counter, and the one whose decrement saw 1 finishes. There is
 no lock: the store, the decrement and the call of `_finish` are three separate
 steps, and a schedule interleaves those of all operations freely.
 */
module Join {
  import opened Values

  /** The handler's fields, and its calls of `_finish`: by whom, with which slots. */
  datatype Shared<V> = Shared(slots: seq<Option<V>>, remaining: nat, finishes: seq<(nat, seq<Option<V>>)>)

  function Emplaced<V>(sh: Shared<V>, n: nat, x: V): Shared<V>
    requires n < |sh.slots|
  {
    sh.(slots := sh.slots[n := Some(x)])
  }

  function Subtracted<V>(sh: Shared<V>): Shared<V>
    requires sh.remaining > 0
  {
    sh.(remaining := sh.remaining - 1)
  }

  function Delivered<V>(sh: Shared<V>, n: nat): Shared<V> {
    sh.(finishes := sh.finishes + [(n, sh.slots)])
  }

  class Handler<V> {
    var slots: seq<Option<V>>
    var remaining: nat
    var finishes: seq<(nat, seq<Option<V>>)>

    constructor (n: nat)
      ensures State() == Shared(seq(n, _ => None), n, [])
    {
      slots, remaining, finishes := seq(n, _ => None), n, [];
    }

    function State(): Shared<V>
      reads this
    {
      Shared(slots, remaining, finishes)
    }

    method Emplace(n: nat, x: V)
      requires n < |slots|
      modifies this
      ensures State() == old(Emplaced(State(), n, x))
    {
      slots := slots[n := Some(x)];
    }

    /** The atomic decrement, which returns the value it found. */
    method FetchSub() returns (before: nat)
      requires remaining > 0
      modifies this
      ensures State() == old(Subtracted(State())) && before == old(remaining)
    {
      before := remaining;
      remaining := remaining - 1;
    }

    /** What follows the decrement. */
    method AfterSub(n: nat, before: nat)
      modifies this
      ensures State() == if before == 1 then old(Delivered(State(), n)) else old(State())
    {
      if before == 1 {
        finishes := finishes + [(n, slots)];
      }
    }
  }

  // ----- interleavings

  /** Where an operation stands; `before` is what its decrement returned. */
  datatype Phase = Pending | Stored | Counted(before: nat) | Done(before: nat)

  /** All threads, the shared state, and the operation whose decrement saw 1, once there is one. */
  datatype World<V> = World(phases: seq<Phase>, shared: Shared<V>, last: Option<nat>)

  function Start<V>(values: seq<V>): World<V> {
    World(seq(|values|, _ => Pending), Shared(seq(|values|, _ => None), |values|, []), None)
  }

  function Step<V>(values: seq<V>, w: World<V>, n: nat): World<V>
    requires |w.phases| == |w.shared.slots| == |values|
  {
    if n >= |values| then w
    else
      match w.phases[n]
      case Pending => w.(phases := w.phases[n := Stored], shared := Emplaced(w.shared, n, values[n]))
      case Stored =>
        if w.shared.remaining == 0 then w
        else World(w.phases[n := Counted(w.shared.remaining)], Subtracted(w.shared),
                   if w.shared.remaining == 1 then Some(n) else w.last)
      case Counted(before) =>
        w.(phases := w.phases[n := Done(before)], shared := if before == 1 then Delivered(w.shared, n) else w.shared)
      case Done(_) => w
  }

  function Exec<V>(values: seq<V>, schedule: seq<nat>): (w: World<V>)
    ensures |w.phases| == |w.shared.slots| == |values|
  {
    if schedule == [] then Start(values)
    else Step(values, Exec(values, schedule[..|schedule| - 1]), schedule[|schedule| - 1])
  }

  // ----- the invariant

  predicate Uncounted(p: Phase) {
    p.Pending? || p.Stored?
  }

  function CountUncounted(phases: seq<Phase>): nat {
    if phases == [] then 0
    else CountUncounted(phases[..|phases| - 1]) + (if Uncounted(phases[|phases| - 1]) then 1 else 0)
  }

  lemma {:induction false} CountUpdate(phases: seq<Phase>, n: nat, p: Phase)
    requires n < |phases|
    ensures CountUncounted(phases[n := p])
      == CountUncounted(phases) - (if Uncounted(phases[n]) then 1 else 0) + (if Uncounted(p) then 1 else 0)
  {
    var k := |phases| - 1;
    if n == k {
      assert phases[n := p][..k] == phases[..k];
    } else {
      assert phases[n := p][..k] == phases[..k][n := p];
      CountUpdate(phases[..k], n, p);
    }
  }

  lemma {:induction false} CountZero(phases: seq<Phase>)
    ensures CountUncounted(phases) == 0 <==> forall n :: 0 <= n < |phases| ==> !Uncounted(phases[n])
    ensures CountUncounted(phases) <= |phases|
    ensures (forall n :: 0 <= n < |phases| ==> Uncounted(phases[n])) ==> CountUncounted(phases) == |phases|
  {
    if phases != [] {
      var k := |phases| - 1;
      CountZero(phases[..k]);
      assert forall n :: 0 <= n < k ==> phases[..k][n] == phases[n];
    }
  }

  /** A slot holds its own operation's value from the store on. */
  ghost predicate SlotsOk<V>(values: seq<V>, w: World<V>) {
    && |w.phases| == |w.shared.slots| == |values|
    && forall n :: 0 <= n < |values| ==> w.shared.slots[n] == if w.phases[n].Pending? then None else Some(values[n])
  }

  /** Only one decrement saw 1, and it was the one that emptied the counter. */
  ghost predicate LastOk<V>(values: seq<V>, w: World<V>) {
    && |w.phases| == |values|
    && w.shared.remaining == CountUncounted(w.phases)
    && (w.last.Some? <==> w.shared.remaining == 0 && values != [])
    && (w.last.Some? ==> w.last.value < |values|)
    && (forall n :: 0 <= n < |values| && !Uncounted(w.phases[n]) ==> (w.phases[n].before == 1 <==> w.last == Some(n)))
  }

  /** `_finish` has run iff that operation is done, and it had every value. */
  ghost predicate FinishOk<V>(values: seq<V>, w: World<V>)
    requires LastOk(values, w)
  {
    w.shared.finishes ==
      if w.last.Some? && w.phases[w.last.value].Done?
      then [(w.last.value, seq(|values|, n requires 0 <= n < |values| => Some(values[n])))]
      else []
  }

  ghost predicate Inv<V>(values: seq<V>, w: World<V>) {
    SlotsOk(values, w) && LastOk(values, w) && FinishOk(values, w)
  }

  lemma InvCount<V>(values: seq<V>, w: World<V>, n: nat)
    requires Inv(values, w) && n < |values| && w.phases[n].Stored?
    ensures w.shared.remaining > 0
    ensures Inv(values, Step(values, w, n))
  {
    CountZero(w.phases);
    assert Uncounted(w.phases[n]);
    var w' := Step(values, w, n);
    CountUpdate(w.phases, n, w'.phases[n]);
    assert LastOk(values, w');
  }

  lemma InvFinish<V>(values: seq<V>, w: World<V>, n: nat)
    requires Inv(values, w) && n < |values| && w.phases[n].Counted?
    ensures Inv(values, Step(values, w, n))
  {
    CountUpdate(w.phases, n, Done(w.phases[n].before));
    CountZero(w.phases);
    var w' := Step(values, w, n);
    assert LastOk(values, w');
    if w.phases[n].before == 1 {
      assert forall k :: 0 <= k < |values| ==> !Uncounted(w.phases[k]) && w.shared.slots[k] == Some(values[k]);
      assert w.shared.slots == seq(|values|, k requires 0 <= k < |values| => Some(values[k]));
    }
  }

  lemma {:induction false} InvAlways<V>(values: seq<V>, schedule: seq<nat>)
    ensures Inv(values, Exec(values, schedule))
  {
    if schedule == [] {
      CountZero(Start(values).phases);
    } else {
      var k := |schedule| - 1;
      InvAlways(values, schedule[..k]);
      var w, n := Exec(values, schedule[..k]), schedule[k];
      if n < |values| {
        match w.phases[n]
        case Pending => CountUpdate(w.phases, n, Stored);
        case Stored => InvCount(values, w, n);
        case Counted(_) => InvFinish(values, w, n);
        case Done(_) =>
      }
    }
  }

  // ----- the guarantees

  /**
   In every interleaving, `_finish` runs at most once; when it runs it is by the
   operation whose decrement saw 1, after every operation has decremented, and every
   slot holds the value of its own operation.
   */
  lemma JoinSafety<V>(values: seq<V>, schedule: seq<nat>)
    ensures var w := Exec(values, schedule);
      && |w.shared.finishes| <= 1
      && (w.shared.finishes != [] ==>
            var (n, slots) := w.shared.finishes[0];
            && n < |values| && w.phases[n] == Done(1)
            && (forall k :: 0 <= k < |values| ==> !Uncounted(w.phases[k]))
            && |slots| == |values| && forall k :: 0 <= k < |values| ==> slots[k] == Some(values[k]))
  {
    InvAlways(values, schedule);
    CountZero(Exec(values, schedule).phases);
  }

  /** Once every operation is done, `_finish` has run exactly once; every decrement but one saw more than 1. */
  lemma JoinCompletes<V>(values: seq<V>, schedule: seq<nat>)
    requires values != []
    requires forall n :: 0 <= n < |values| ==> Exec(values, schedule).phases[n].Done?
    ensures var w := Exec(values, schedule);
      && |w.shared.finishes| == 1
      && forall n :: 0 <= n < |values| ==> (w.phases[n].before == 1 <==> n == w.shared.finishes[0].0)
  {
    InvAlways(values, schedule);
    CountZero(Exec(values, schedule).phases);
  }
}

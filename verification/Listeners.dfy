/**
 The intrusive listener list (`src/amongoc/event_emitter.hpp`). A listener is linked
 through its `next` field and through a pointer to the field that points at it, which
 is either the emitter's `head` or another listener's `next`.
 */
module Listeners {
  /** What `_previous_nextptr` can point to. */
  datatype Slot = HeadOf(emitter: Emitter) | NextOf(listener: Listener)

  ghost predicate NewestFirst(nodes: seq<Listener>) {
    forall i, j :: 0 <= i < j < |nodes| ==> nodes[i].stamp > nodes[j].stamp
  }

  lemma Distinct(nodes: seq<Listener>)
    requires NewestFirst(nodes)
    ensures forall i, j :: 0 <= i < j < |nodes| ==> nodes[i] != nodes[j]
  {
    forall i, j | 0 <= i < j < |nodes|
      ensures nodes[i] != nodes[j]
    {
      assert nodes[i].stamp > nodes[j].stamp;
    }
  }

  lemma NewestFirstWithout(nodes: seq<Listener>, at: nat)
    requires NewestFirst(nodes) && at < |nodes|
    ensures NewestFirst(nodes[..at] + nodes[at + 1..])
  {
    var rest := nodes[..at] + nodes[at + 1..];
    assert forall i :: 0 <= i < |rest| ==> rest[i] == nodes[if i < at then i else i + 1];
  }

  class Emitter {
    var head: Listener?
    /** The live listeners, front of the list first, and the number constructed so far. */
    ghost var nodes: seq<Listener>
    ghost var created: nat

    constructor ()
      ensures Valid() && nodes == [] && created == 0
    {
      head := null;
      nodes, created := [], 0;
    }

    ghost predicate Valid()
      reads this, nodes
    {
      && head == (if nodes == [] then null else nodes[0])
      && (forall i {:trigger Linked(i)} :: 0 <= i < |nodes| ==> Linked(i))
      && NewestFirst(nodes)
    }

    ghost predicate Linked(i: nat)
      requires i < |nodes|
      reads this, nodes
    {
      && nodes[i].next == (if i + 1 < |nodes| then nodes[i + 1] else null)
      && nodes[i].prev == (if i == 0 then HeadOf(this) else NextOf(nodes[i - 1]))
      && nodes[i].stamp < created
    }

    /** Dispatches to every listener; `visited` records the calls of `do_fire`. */
    method Fire() returns (visited: seq<Listener>)
      requires Valid()
      ensures visited == nodes
    {
      visited := [];
      if head == null {
        return;
      }
      var p := head;
      while p != null
        invariant |visited| <= |nodes| && visited == nodes[..|visited|]
        invariant p == if |visited| < |nodes| then nodes[|visited|] else null
        decreases |nodes| - |visited|
      {
        assert Linked(|visited|);
        visited := visited + [p];
        p := p.next;
      }
    }
  }

  class Listener {
    var next: Listener?
    var prev: Slot
    /** How many listeners of the emitter were constructed before this one. */
    ghost const stamp: nat

    constructor (owner: Emitter)
      requires owner.Valid()
      modifies owner, owner.nodes
      ensures owner.Valid()
      ensures owner.nodes == [this] + old(owner.nodes)
      ensures stamp == old(owner.created) && owner.created == stamp + 1
    {
      next := owner.head;
      prev := HeadOf(owner);
      stamp := owner.created;
      new;
      ghost var was := owner.nodes;
      Distinct(was);
      assert was != [] ==> owner.Linked(0);
      if owner.head != null {
        owner.head.prev := NextOf(this);
      }
      owner.head := this;
      owner.nodes := [this] + owner.nodes;
      owner.created := owner.created + 1;
      forall i | 0 <= i < |owner.nodes|
        ensures owner.Linked(i)
      {
        if i > 0 {
          assert old(owner.Linked(i - 1)) && owner.nodes[i] == was[i - 1];
        }
      }
    }

    /** `~listener_base` */
    method Destroy(ghost owner: Emitter, ghost at: nat)
      requires owner.Valid() && at < |owner.nodes| && owner.nodes[at] == this
      modifies owner, owner.nodes
      ensures owner.Valid()
      ensures owner.nodes == old(owner.nodes[..at] + owner.nodes[at + 1..])
      ensures owner.created == old(owner.created)
    {
      ghost var was := owner.nodes;
      Distinct(was);
      NewestFirstWithout(was, at);
      hide NewestFirst;
      assert owner.Linked(at);
      assert at + 1 < |was| ==> was[at + 1] in was;
      assert at > 0 ==> was[at - 1] in was;
      match prev {
        case HeadOf(emitter) => emitter.head := next;
        case NextOf(listener) => listener.next := next;
      }
      if next != null {
        next.prev := prev;
      }
      owner.nodes := was[..at] + was[at + 1..];
      forall i | 0 <= i < |owner.nodes|
        ensures owner.Linked(i)
      {
        var k := if i < at then i else i + 1;
        assert old(owner.Linked(k)) && owner.nodes[i] == was[k];
      }
    }
  }

  /** Reading through a slot. */
  function Deref(slot: Slot): Listener?
    reads match slot case HeadOf(e) => {e as object} case NextOf(l) => {l as object}
  {
    match slot
    case HeadOf(e) => e.head
    case NextOf(l) => l.next
  }

  /** Of all the slots of a list, `prev` is the one that points at the listener. */
  lemma PrevIsUniqueSlot(owner: Emitter, at: nat, slot: Slot)
    requires owner.Valid() && at < |owner.nodes|
    requires slot == HeadOf(owner) || (slot.NextOf? && slot.listener in owner.nodes)
    ensures Deref(slot) == owner.nodes[at] <==> slot == owner.nodes[at].prev
  {
    Distinct(owner.nodes);
    assert owner.Linked(at);
    if slot.NextOf? {
      var j :| 0 <= j < |owner.nodes| && owner.nodes[j] == slot.listener;
      assert owner.Linked(j);
    }
  }

  // ----- whole histories

  datatype Event = Listen | Unlisten(stamp: nat)

  function Listens(history: seq<Event>): nat {
    if history == [] then 0
    else Listens(history[..|history| - 1]) + (if history[|history| - 1].Listen? then 1 else 0)
  }

  function Without(xs: seq<nat>, x: nat): seq<nat> {
    if xs == [] then []
    else (if xs[0] == x then [] else [xs[0]]) + Without(xs[1..], x)
  }

  /** The stamps of the live listeners, newest first. */
  function Live(history: seq<Event>): seq<nat> {
    if history == [] then []
    else
      var before := Live(history[..|history| - 1]);
      match history[|history| - 1]
      case Listen => [Listens(history[..|history| - 1])] + before
      case Unlisten(x) => Without(before, x)
  }

  lemma {:induction false} WithoutMeaning(xs: seq<nat>, x: nat)
    requires forall i, j :: 0 <= i < j < |xs| ==> xs[i] > xs[j]
    ensures forall i, j :: 0 <= i < j < |Without(xs, x)| ==> Without(xs, x)[i] > Without(xs, x)[j]
    ensures forall y: nat :: y in Without(xs, x) <==> y in xs && y != x
  {
    if xs != [] {
      var rest := Without(xs[1..], x);
      WithoutMeaning(xs[1..], x);
      forall j | 0 <= j < |rest|
        ensures rest[j] < xs[0]
      {
        assert rest[j] in rest && rest[j] in xs[1..];
      }
    }
  }

  ghost predicate Constructed(history: seq<Event>, x: nat) {
    x < Listens(history)
  }

  /** Listener `x` was destroyed at some point after its construction. */
  ghost predicate DestroyedSince(history: seq<Event>, x: nat) {
    exists i :: 0 <= i < |history| && DestroyedAt(history, x, i)
  }

  ghost predicate DestroyedAt(history: seq<Event>, x: nat, i: nat)
    requires i < |history|
  {
    history[i] == Unlisten(x) && x < Listens(history[..i])
  }

  lemma DestroyedSinceLast(history: seq<Event>, x: nat)
    requires history != []
    ensures DestroyedSince(history, x) <==>
      DestroyedSince(history[..|history| - 1], x) || DestroyedAt(history, x, |history| - 1)
  {
    var before := history[..|history| - 1];
    assert forall i :: 0 <= i < |before| ==> before[..i] == history[..i];
    assert forall i :: 0 <= i < |before| ==> (DestroyedAt(before, x, i) <==> DestroyedAt(history, x, i));
    if DestroyedSince(history, x) {
      var i :| 0 <= i < |history| && DestroyedAt(history, x, i);
      assert i < |before| ==> DestroyedAt(before, x, i);
    }
  }

  lemma {:induction false} DestroyedWasConstructed(history: seq<Event>, x: nat)
    requires DestroyedSince(history, x)
    ensures Constructed(history, x)
  {
    DestroyedSinceLast(history, x);
    if DestroyedSince(history[..|history| - 1], x) {
      DestroyedWasConstructed(history[..|history| - 1], x);
    }
  }

  /** Exactly the listeners constructed and not destroyed since are live, each once, newest first. */
  lemma {:induction false} LiveMeaning(history: seq<Event>)
    ensures forall i, j :: 0 <= i < j < |Live(history)| ==> Live(history)[i] > Live(history)[j]
    ensures forall x: nat :: x in Live(history) <==> Constructed(history, x) && !DestroyedSince(history, x)
  {
    if history != [] {
      var before, last := history[..|history| - 1], history[|history| - 1];
      LiveMeaning(before);
      forall j | 0 <= j < |Live(before)|
        ensures Live(before)[j] < Listens(before)
      {
        assert Live(before)[j] in Live(before);
      }
      if last.Unlisten? {
        WithoutMeaning(Live(before), last.stamp);
      }
      forall x: nat
        ensures x in Live(history) <==> Constructed(history, x) && !DestroyedSince(history, x)
      {
        DestroyedSinceLast(history, x);
        if DestroyedSince(before, x) {
          DestroyedWasConstructed(before, x);
        }
      }
    }
  }

  /** The stamps of a list of listeners. */
  ghost function Stamps(nodes: seq<Listener>): (s: seq<nat>)
    ensures |s| == |nodes| && forall i :: 0 <= i < |nodes| ==> s[i] == nodes[i].stamp
  {
    if nodes == [] then [] else [nodes[0].stamp] + Stamps(nodes[1..])
  }

  lemma {:induction false} WithoutAt(xs: seq<nat>, at: nat)
    requires forall i, j :: 0 <= i < j < |xs| ==> xs[i] > xs[j]
    requires at < |xs|
    ensures Without(xs, xs[at]) == xs[..at] + xs[at + 1..]
  {
    if at == 0 {
      WithoutAbsent(xs[1..], xs[0]);
    } else {
      WithoutAt(xs[1..], at - 1);
    }
  }

  lemma {:induction false} WithoutAbsent(xs: seq<nat>, x: nat)
    requires x !in xs
    ensures Without(xs, x) == xs
  {
    if xs != [] {
      WithoutAbsent(xs[1..], x);
    }
  }

  /** The owners' references: one per listener constructed, null once it is destroyed. */
  ghost predicate Owned(nodes: seq<Listener>, owned: seq<Listener?>) {
    && (forall x: nat :: x < |owned| && owned[x] != null ==> owned[x].stamp == x && owned[x] in nodes)
    && (forall x: nat :: x < |owned| && owned[x] == null ==> x !in Stamps(nodes))
  }

  lemma StampsWithout(before: seq<Listener>, at: nat)
    requires at < |before| && NewestFirst(before)
    ensures Stamps(before[..at] + before[at + 1..]) == Without(Stamps(before), before[at].stamp)
  {
    var stamps, rest := Stamps(before), before[..at] + before[at + 1..];
    WithoutAt(stamps, at);
    hide Without, NewestFirst;
    forall i | 0 <= i < |rest|
      ensures Stamps(rest)[i] == (stamps[..at] + stamps[at + 1..])[i]
    {
      assert rest[i] == before[if i < at then i else i + 1];
    }
    assert Stamps(rest) == stamps[..at] + stamps[at + 1..];
  }

  lemma StillListed(before: seq<Listener>, at: nat, listener: Listener)
    requires at < |before| && listener in before && listener != before[at]
    ensures listener in before[..at] + before[at + 1..]
  {
    var i :| 0 <= i < |before| && before[i] == listener;
    assert (before[..at] + before[at + 1..])[if i < at then i else i - 1] == listener;
  }

  lemma StampGone(before: seq<Listener>, at: nat)
    requires at < |before| && NewestFirst(before)
    ensures before[at].stamp !in Stamps(before[..at] + before[at + 1..])
  {
    var rest := before[..at] + before[at + 1..];
    forall i | 0 <= i < |rest|
      ensures Stamps(rest)[i] != before[at].stamp
    {
      assert rest[i] == before[if i < at then i else i + 1];
    }
  }

  lemma OwnedWithout(before: seq<Listener>, owned: seq<Listener?>, at: nat, x: nat)
    requires Owned(before, owned) && at < |before| && NewestFirst(before)
    requires x < |owned| && owned[x] == before[at]
    ensures Owned(before[..at] + before[at + 1..], owned[x := null])
  {
    var rest, after := before[..at] + before[at + 1..], owned[x := null];
    StampGone(before, at);
    forall y: nat | y < |after| && after[y] != null
      ensures after[y] in rest
    {
      StillListed(before, at, after[y]);
    }
    forall i | 0 <= i < |rest|
      ensures Stamps(rest)[i] in Stamps(before)
    {
      var k := if i < at then i else i + 1;
      assert Stamps(before)[k] == before[k].stamp == rest[i].stamp;
    }
  }

  lemma NotYet(emitter: Emitter, x: nat)
    requires emitter.Valid()
    ensures x >= emitter.created ==> x !in Stamps(emitter.nodes)
  {
    assert forall i :: 0 <= i < |emitter.nodes| ==> emitter.Linked(i) && Stamps(emitter.nodes)[i] < emitter.created;
  }

  /** A new listener, kept by its owner. */
  method Add(emitter: Emitter, owned: seq<Listener?>) returns (after: seq<Listener?>)
    requires emitter.Valid() && Owned(emitter.nodes, owned) && |owned| == emitter.created
    modifies emitter, emitter.nodes
    ensures emitter.Valid() && Owned(emitter.nodes, after) && |after| == emitter.created
    ensures emitter.created == old(emitter.created) + 1
    ensures Stamps(emitter.nodes) == [old(emitter.created)] + old(Stamps(emitter.nodes))
    ensures forall i :: 0 <= i < |emitter.nodes| ==> emitter.nodes[i] in old(emitter.nodes) || fresh(emitter.nodes[i])
  {
    var listener := new Listener(emitter);
    after := owned + [listener];
  }

  /** Its owner destroys a listener, if it still has it. */
  method Remove(emitter: Emitter, owned: seq<Listener?>, x: nat) returns (after: seq<Listener?>)
    requires emitter.Valid() && Owned(emitter.nodes, owned) && |owned| == emitter.created
    modifies emitter, emitter.nodes
    ensures emitter.Valid() && Owned(emitter.nodes, after) && |after| == emitter.created
    ensures emitter.created == old(emitter.created)
    ensures Stamps(emitter.nodes) == old(Without(Stamps(emitter.nodes), x))
    ensures forall i :: 0 <= i < |emitter.nodes| ==> emitter.nodes[i] in old(emitter.nodes)
  {
    hide Without, NewestFirst, Stamps;
    after := owned;
    if x < |owned| && owned[x] != null {
      ghost var nodes := emitter.nodes;
      ghost var at :| 0 <= at < |nodes| && nodes[at] == owned[x];
      StampsWithout(nodes, at);
      OwnedWithout(nodes, owned, at, x);
      owned[x].Destroy(emitter, at);
      after := owned[x := null];
    } else {
      NotYet(emitter, x);
      WithoutAbsent(Stamps(emitter.nodes), x);
    }
  }

  /**
   Replays a history on a fresh emitter; destroying a listener that is not live does
   nothing. However listeners come and go, firing then reaches exactly the live ones,
   each once, newest first.
   */
  method Replay(history: seq<Event>) returns (emitter: Emitter, ghost fired: seq<nat>)
    ensures fresh(emitter) && emitter.Valid() && emitter.created == Listens(history)
    ensures fired == Live(history)
  {
    emitter := new Emitter();
    var owned: seq<Listener?> := [];
    for k := 0 to |history|
      invariant fresh(emitter) && forall i :: 0 <= i < |emitter.nodes| ==> fresh(emitter.nodes[i])
      invariant emitter.Valid() && Owned(emitter.nodes, owned) && |owned| == emitter.created
      invariant emitter.created == Listens(history[..k])
      invariant Stamps(emitter.nodes) == Live(history[..k])
    {
      assert history[..k + 1][..k] == history[..k];
      match history[k] {
        case Listen => owned := Add(emitter, owned);
        case Unlisten(x) => owned := Remove(emitter, owned, x);
      }
    }
    assert history[..|history|] == history;
    var visited := emitter.Fire();
    fired := Stamps(visited);
  }
}

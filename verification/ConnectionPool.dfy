/**
 The connection pool (`src/amongoc/connection_pool.cpp`, `connection_pool.hpp`).
 Each critical section, constructor, destructor and resumption point is one action;
 the coroutines and threads using the pool interleave these in any order, so a run is
 any sequence of actions. A connection is named by its position in the order of
 creation, a member (also a checkout on its way to become one) by a number of its own.
 */
module ConnectionPool {
  import opened Collections
  import opened Values

  /**
   `ids` holds the `_id` of every connection created so far and `perished` those with
   `_perished` set; `idle` is the pool's list, front first; `members` maps every live `member` to the
   connection in its list (none when it was moved from); `connecting` are checkouts
   waiting for a connection to be established; `busy` members have a request in
   flight; `destroyed` lists the connections whose destructor has run.
   */
  datatype State = State(
    ids: seq<int>, perished: set<nat>, connIds: int, idle: seq<nat>, members: map<nat, Option<nat>>,
    connecting: set<nat>, busy: set<nat>, destroyed: seq<nat>)

  /** `fetch_add` on a signed 32-bit atomic wraps around. */
  function Wrap(n: int): (r: int)
    ensures -0x8000_0000 <= r < 0x8000_0000 && (r - n) % 0x1_0000_0000 == 0
  {
    (n + 0x8000_0000) % 0x1_0000_0000 - 0x8000_0000
  }

  const INITIAL := State([], {}, 1, [], map[], {}, {}, [])

  // ----- effects

  /** The locked part of `checkout`, up to the point where it returns or starts connecting. */
  function CheckedOut(s: State, h: nat): State {
    if s.idle != []
    then s.(idle := s.idle[1..], members := s.members[h := Some(s.idle[0])])
    else s.(connecting := s.connecting + {h})
  }

  /** Constructing a `member_impl` in the one-element list and the member around it. */
  function Established(s: State, h: nat): State {
    s.(ids := s.ids + [s.connIds], connIds := Wrap(s.connIds + 1),
       connecting := s.connecting - {h}, members := s.members[h := Some(|s.ids|)])
  }

  predicate Holds(s: State, h: nat) {
    h in s.members && s.members[h].Some?
  }

  /** The end of a request; a failed one marks the connection. */
  function Answered(s: State, h: nat, ok: bool): State {
    if !ok && Holds(s, h)
    then s.(busy := s.busy - {h}, perished := s.perished + {s.members[h].value})
    else s.(busy := s.busy - {h})
  }

  /** Destroying the connection in a member's list, if there is one. */
  function Discarded(s: State, h: nat): seq<nat> {
    if Holds(s, h) then s.destroyed + [s.members[h].value] else s.destroyed
  }

  /** `~member` */
  function Dropped(s: State, h: nat): State {
    if Holds(s, h) && s.members[h].value !in s.perished
    then s.(idle := [s.members[h].value] + s.idle, members := s.members - {h})
    else s.(destroyed := Discarded(s, h), members := s.members - {h})
  }

  /** The defaulted move constructor. */
  function Moved(s: State, source: nat, h: nat): State
    requires source in s.members
  {
    s.(members := s.members[h := s.members[source]][source := None])
  }

  /** The defaulted move assignment: the target's list is cleared, not returned. */
  function MoveAssigned(s: State, source: nat, h: nat): State
    requires source in s.members
  {
    s.(destroyed := Discarded(s, h), members := s.members[h := s.members[source]][source := None])
  }

  // ----- runs

  datatype Action =
    | Checkout(h: nat) | ConnectDone(h: nat) | ConnectFail(h: nat)
    | Send(h: nat) | Answer(h: nat, ok: bool)
    | Move(source: nat, h: nat) | MoveAssign(source: nat, h: nat) | Drop(h: nat)

  /** What C++ itself demands: new names are new, members in use stay put. */
  predicate Enabled(s: State, a: Action) {
    match a
    case Checkout(h) => h !in s.members && h !in s.connecting
    case ConnectDone(h) => h in s.connecting
    case ConnectFail(h) => h in s.connecting
    case Send(h) => Holds(s, h) && h !in s.busy
    case Answer(h, _) => h in s.busy
    case Move(source, h) => source in s.members && source !in s.busy && h !in s.members && h !in s.connecting
    case MoveAssign(source, h) =>
      source in s.members && h in s.members && source != h && source !in s.busy && h !in s.busy
    case Drop(h) => h in s.members && h !in s.busy
  }

  function Step(s: State, a: Action): State {
    if !Enabled(s, a) then s
    else
      match a
      case Checkout(h) => CheckedOut(s, h)
      case ConnectDone(h) => Established(s, h)
      case ConnectFail(h) => s.(connecting := s.connecting - {h})
      case Send(h) => s.(busy := s.busy + {h})
      case Answer(h, ok) => Answered(s, h, ok)
      case Move(source, h) => Moved(s, source, h)
      case MoveAssign(source, h) => MoveAssigned(s, source, h)
      case Drop(h) => Dropped(s, h)
  }

  function Run(s: State, actions: seq<Action>): State
    decreases |actions|
  {
    if actions == [] then s else Run(Step(s, actions[0]), actions[1..])
  }

  // ----- the class

  class Pool {
    var ids: seq<int>
    var perished: set<nat>
    var connIds: int
    var idle: seq<nat>
    var members: map<nat, Option<nat>>
    var connecting: set<nat>
    var busy: set<nat>
    var destroyed: seq<nat>

    constructor ()
      ensures Now() == INITIAL
    {
      ids, perished, connIds, idle, members, connecting, busy, destroyed := [], {}, 1, [], map[], {}, {}, [];
    }

    function Now(): State
      reads this
    {
      State(ids, perished, connIds, idle, members, connecting, busy, destroyed)
    }

    method TakeIdle(h: nat) returns (found: bool)
      modifies this
      ensures Now() == old(CheckedOut(Now(), h)) && found == old(idle != [])
    {
      found := idle != [];
      if found {
        members := members[h := Some(idle[0])];
        idle := idle[1..];
      } else {
        connecting := connecting + {h};
      }
    }

    method Establish(h: nat)
      modifies this
      ensures Now() == old(Established(Now(), h))
    {
      members := members[h := Some(|ids|)];
      ids := ids + [connIds];
      connIds := Wrap(connIds + 1);
      connecting := connecting - {h};
    }

    method Return(c: nat)
      modifies this
      ensures Now() == old(Now()).(idle := [c] + old(idle))
    {
      idle := [c] + idle;
    }

    method DropMember(h: nat)
      modifies this
      ensures Now() == old(Dropped(Now(), h))
    {
      if h in members && members[h].Some? {
        var c := members[h].value;
        if c !in perished {
          Return(c);
        } else {
          destroyed := destroyed + [c];
        }
      }
      members := members - {h};
    }

    method FinishRequest(h: nat, ok: bool)
      modifies this
      ensures Now() == old(Answered(Now(), h, ok))
    {
      if !ok && h in members && members[h].Some? {
        perished := perished + {members[h].value};
      }
      busy := busy - {h};
    }
  }

  // ----- the invariant

  predicate IsIdle(s: State, c: nat) { c in s.idle }
  predicate IsGone(s: State, c: nat) { c in s.destroyed }
  predicate HeldBy(s: State, c: nat, h: nat) { h in s.members && s.members[h] == Some(c) }
  ghost predicate IsHeld(s: State, c: nat) { exists h: nat :: HeldBy(s, c, h) }

  /** Connection `c` is in one place only. */
  ghost predicate OnePlace(s: State, c: nat) {
    && (IsIdle(s, c) ==> !IsGone(s, c) && !IsHeld(s, c))
    && (IsGone(s, c) ==> !IsHeld(s, c))
    && (forall h: nat, k: nat :: HeldBy(s, c, h) && HeldBy(s, c, k) ==> h == k)
  }

  /** Every connection created is idle, held by one member, or destroyed: exactly one of these, and once. */
  ghost predicate Conserved(s: State) {
    && NoDuplicates(s.idle) && NoDuplicates(s.destroyed)
    && forall c: nat :: OnePlace(s, c) && (c < |s.ids| <==> IsIdle(s, c) || IsHeld(s, c) || IsGone(s, c))
  }

  /** No idle connection has failed a request, and only members that hold one have requests. */
  ghost predicate Healthy(s: State) {
    && (forall c: nat :: IsIdle(s, c) ==> c !in s.perished)
    && (forall h: nat :: h in s.busy ==> Holds(s, h))
    && (forall h: nat :: h in s.connecting ==> h !in s.members)
    && (forall c: nat :: c in s.perished ==> c < |s.ids|)
  }

  ghost predicate Numbered(s: State) {
    && s.connIds == Wrap(1 + |s.ids|)
    && forall c :: 0 <= c < |s.ids| ==> s.ids[c] == Wrap(1 + c)
  }

  ghost predicate Inv(s: State) {
    Conserved(s) && Healthy(s) && Numbered(s)
  }

  // ----- every action keeps it

  /** Taking a connection out of the idle list, or out of nothing, into a new or empty member. */
  lemma ConservedCheckout(s: State, h: nat)
    requires Conserved(s) && Healthy(s) && h !in s.members && s.idle != []
    ensures Conserved(CheckedOut(s, h))
  {
    var t := CheckedOut(s, h);
    forall c: nat
      ensures OnePlace(t, c) && (c < |t.ids| <==> IsIdle(t, c) || IsHeld(t, c) || IsGone(t, c))
    {
      assert OnePlace(s, c);
      assert forall k: nat :: k != h ==> (HeldBy(t, c, k) <==> HeldBy(s, c, k));
      assert HeldBy(t, c, h) <==> c == s.idle[0];
      assert IsIdle(s, c) <==> IsIdle(t, c) || c == s.idle[0];
    }
  }

  lemma ConservedEstablish(s: State, h: nat)
    requires Conserved(s) && h !in s.members
    ensures Conserved(Established(s, h))
  {
    var t := Established(s, h);
    forall c: nat
      ensures OnePlace(t, c) && (c < |t.ids| <==> IsIdle(t, c) || IsHeld(t, c) || IsGone(t, c))
    {
      assert OnePlace(s, c);
      assert forall k: nat :: k != h ==> (HeldBy(t, c, k) <==> HeldBy(s, c, k));
      assert HeldBy(t, c, h) <==> c == |s.ids|;
    }
  }

  lemma ConservedDrop(s: State, h: nat)
    requires Conserved(s) && h in s.members
    ensures Conserved(Dropped(s, h))
  {
    var t := Dropped(s, h);
    forall c: nat
      ensures OnePlace(t, c) && (c < |t.ids| <==> IsIdle(t, c) || IsHeld(t, c) || IsGone(t, c))
    {
      assert OnePlace(s, c);
      assert forall k: nat :: k != h ==> (HeldBy(t, c, k) <==> HeldBy(s, c, k));
      assert !HeldBy(t, c, h);
      assert IsIdle(t, c) <==> IsIdle(s, c) || (HeldBy(s, c, h) && c !in s.perished);
      assert IsGone(t, c) <==> IsGone(s, c) || (HeldBy(s, c, h) && c in s.perished);
    }
    if Holds(s, h) {
      assert HeldBy(s, s.members[h].value, h) && OnePlace(s, s.members[h].value);
    }
  }

  lemma ConservedMove(s: State, source: nat, h: nat)
    requires Conserved(s) && source in s.members && h !in s.members
    ensures Conserved(Moved(s, source, h))
  {
    var t := Moved(s, source, h);
    forall c: nat
      ensures OnePlace(t, c) && (c < |t.ids| <==> IsIdle(t, c) || IsHeld(t, c) || IsGone(t, c))
    {
      assert OnePlace(s, c);
      assert forall k: nat :: k != h && k != source ==> (HeldBy(t, c, k) <==> HeldBy(s, c, k));
      assert HeldBy(t, c, h) <==> HeldBy(s, c, source);
      assert !HeldBy(t, c, source);
    }
  }

  lemma ConservedMoveAssign(s: State, source: nat, h: nat)
    requires Conserved(s) && source in s.members && h in s.members && source != h
    ensures Conserved(MoveAssigned(s, source, h))
  {
    var t := MoveAssigned(s, source, h);
    forall c: nat
      ensures OnePlace(t, c) && (c < |t.ids| <==> IsIdle(t, c) || IsHeld(t, c) || IsGone(t, c))
    {
      assert OnePlace(s, c);
      assert forall k: nat :: k != h && k != source ==> (HeldBy(t, c, k) <==> HeldBy(s, c, k));
      assert HeldBy(t, c, h) <==> HeldBy(s, c, source);
      assert !HeldBy(t, c, source);
      assert IsGone(t, c) <==> IsGone(s, c) || HeldBy(s, c, h);
    }
    if Holds(s, h) {
      assert HeldBy(s, s.members[h].value, h) && OnePlace(s, s.members[h].value);
    }
  }

  lemma ConservedSame(s: State, t: State)
    requires Conserved(s)
    requires t.ids == s.ids && t.idle == s.idle && t.members == s.members && t.destroyed == s.destroyed
    ensures Conserved(t)
  {
    forall c: nat
      ensures OnePlace(t, c) && (c < |t.ids| <==> IsIdle(t, c) || IsHeld(t, c) || IsGone(t, c))
    {
      assert OnePlace(s, c);
      assert forall k: nat :: HeldBy(t, c, k) <==> HeldBy(s, c, k);
    }
  }

  lemma StepConserves(s: State, a: Action)
    requires Inv(s)
    ensures Conserved(Step(s, a))
  {
    hide Conserved, Numbered;
    if Enabled(s, a) {
      match a
      case Checkout(h) =>
        if s.idle != [] {
          ConservedCheckout(s, h);
        } else {
          ConservedSame(s, Step(s, a));
        }
      case ConnectDone(h) => ConservedEstablish(s, h);
      case Move(source, h) => ConservedMove(s, source, h);
      case MoveAssign(source, h) => ConservedMoveAssign(s, source, h);
      case Drop(h) => ConservedDrop(s, h);
      case _ => ConservedSame(s, Step(s, a));
    }
  }

  /** A member's connection was created and is not idle. */
  lemma HeldIsNotIdle(s: State, c: nat, h: nat)
    requires Conserved(s) && HeldBy(s, c, h)
    ensures c < |s.ids| && !IsIdle(s, c) && !IsGone(s, c)
  {
    assert OnePlace(s, c) && IsHeld(s, c);
  }

  lemma IdleWasCreated(s: State, c: nat)
    requires Conserved(s) && IsIdle(s, c)
    ensures c < |s.ids|
  {
    assert OnePlace(s, c);
  }

  lemma StepHealthy(s: State, a: Action)
    requires Inv(s)
    ensures Healthy(Step(s, a))
  {
    forall c: nat, h: nat | HeldBy(s, c, h)
      ensures c < |s.ids| && !IsIdle(s, c)
    {
      HeldIsNotIdle(s, c, h);
    }
    forall c: nat | IsIdle(s, c)
      ensures c < |s.ids|
    {
      IdleWasCreated(s, c);
    }
    hide Conserved, Numbered;
    var t := Step(s, a);
    if a.Answer? && Enabled(s, a) {
      assert HeldBy(s, s.members[a.h].value, a.h);
    }
    forall c: nat | IsIdle(t, c)
      ensures c !in t.perished
    {
      if a.Drop? && Enabled(s, a) && !IsIdle(s, c) {
        assert HeldBy(s, c, a.h);
      }
    }
  }

  lemma {:induction false} InvAlways(s: State, actions: seq<Action>)
    requires Inv(s)
    ensures Inv(Run(s, actions))
    decreases |actions|
  {
    if actions != [] {
      StepConserves(s, actions[0]);
      StepHealthy(s, actions[0]);
      StepNumbered(s, actions[0]);
      InvAlways(Step(s, actions[0]), actions[1..]);
    }
  }

  lemma StepNumbered(s: State, a: Action)
    requires Inv(s)
    ensures Numbered(Step(s, a))
  {
    hide Conserved, Healthy;
  }

  // ----- the guarantees

  lemma {:induction false} RunAppend(s: State, first: seq<Action>, second: seq<Action>)
    ensures Run(s, first + second) == Run(Run(s, first), second)
    decreases |first|
  {
    if first == [] {
      assert first + second == second;
    } else {
      assert (first + second)[1..] == first[1..] + second;
      RunAppend(Step(s, first[0]), first[1..], second);
    }
  }

  /** From an empty pool, whatever is interleaved, no connection is lost, shared or destroyed twice. */
  lemma PoolConserves(actions: seq<Action>)
    ensures Inv(Run(INITIAL, actions))
    ensures var s := Run(INITIAL, actions);
      forall h: nat, k: nat :: h in s.busy && k in s.busy && h != k ==>
        Holds(s, h) && Holds(s, k) && s.members[h] != s.members[k]
  {
    InvAlways(INITIAL, actions);
    var s := Run(INITIAL, actions);
    forall h: nat, k: nat | h in s.busy && k in s.busy && h != k
      ensures s.members[h] != s.members[k]
    {
      var c := s.members[h].value;
      assert OnePlace(s, c) && HeldBy(s, c, h);
      assert HeldBy(s, c, k) ==> h == k;
    }
  }

  /** Two connections of one pool have the same `_id` exactly when they are a multiple of 2^32 apart. */
  lemma IdsRepeatIff(actions: seq<Action>, a: nat, b: nat)
    requires a < |Run(INITIAL, actions).ids| && b < |Run(INITIAL, actions).ids|
    ensures var ids := Run(INITIAL, actions).ids;
      ids[a] == ids[b] <==> (a - b) % 0x1_0000_0000 == 0
  {
    InvAlways(INITIAL, actions);
    WrapInjective(1 + a, 1 + b);
  }

  lemma WrapInjective(a: int, b: int)
    ensures Wrap(a) == Wrap(b) <==> (a - b) % 0x1_0000_0000 == 0
  {
  }

  // ----- ids do come back

  /** `n` checkouts that each establish a connection. */
  function Connects(n: nat): seq<Action> {
    if n == 0 then [] else Connects(n - 1) + [Checkout(n - 1), ConnectDone(n - 1)]
  }

  lemma {:induction false} ConnectsRun(n: nat)
    ensures var s := Run(INITIAL, Connects(n));
      && |s.ids| == n && s.idle == [] && s.connecting == {}
      && forall h: nat :: h in s.members ==> h < n
  {
    if n > 0 {
      ConnectsRun(n - 1);
      RunAppend(INITIAL, Connects(n - 1), [Checkout(n - 1), ConnectDone(n - 1)]);
      var s := Run(INITIAL, Connects(n - 1));
      var t := Step(s, Checkout(n - 1));
      assert [Checkout(n - 1), ConnectDone(n - 1)][1..] == [ConnectDone(n - 1)];
      assert Run(s, [Checkout(n - 1), ConnectDone(n - 1)]) == Run(t, [ConnectDone(n - 1)]);
      assert Run(t, [ConnectDone(n - 1)]) == Run(Step(t, ConnectDone(n - 1)), []);
    }
  }

  /** A run with one connection more than there are ids has two connections with the same id. */
  lemma IdRepeats()
    ensures var ids := Run(INITIAL, Connects(0x1_0000_0001)).ids;
      |ids| == 0x1_0000_0001 && ids[0] == ids[0x1_0000_0000]
  {
    hide Run, Connects;
    ConnectsRun(0x1_0000_0001);
    IdsRepeatIff(Connects(0x1_0000_0001), 0x1_0000_0000, 0);
  }

  /** A step never unmarks a connection or revives a destroyed one. */
  lemma StepMonotone(s: State, a: Action)
    ensures s.perished <= Step(s, a).perished
    ensures forall c: nat :: IsGone(s, c) ==> IsGone(Step(s, a), c)
  {
  }

  lemma {:induction false} RunMonotone(s: State, actions: seq<Action>)
    ensures s.perished <= Run(s, actions).perished
    ensures forall c: nat :: IsGone(s, c) ==> IsGone(Run(s, actions), c)
    decreases |actions|
  {
    if actions != [] {
      StepMonotone(s, actions[0]);
      RunMonotone(Step(s, actions[0]), actions[1..]);
    }
  }

  /** After a request on a connection has failed, no continuation of the run makes that connection idle. */
  lemma FailedNeverIdle(actions: seq<Action>, h: nat, later: seq<Action>)
    requires h in Run(INITIAL, actions).busy
    ensures Holds(Run(INITIAL, actions), h)
    ensures var c := Run(INITIAL, actions).members[h].value;
      !IsIdle(Run(INITIAL, actions + [Answer(h, false)] + later), c)
  {
    InvAlways(INITIAL, actions);
    var s := Run(INITIAL, actions);
    RunAppend(INITIAL, actions, [Answer(h, false)]);
    var s1 := Run(INITIAL, actions + [Answer(h, false)]);
    assert s1 == Run(Step(s, Answer(h, false)), []);
    RunAppend(INITIAL, actions + [Answer(h, false)], later);
    RunMonotone(s1, later);
    InvAlways(INITIAL, actions + [Answer(h, false)] + later);
  }

  predicate Mentions(a: Action, h: nat) {
    a.h == h || (a.Move? && a.source == h) || (a.MoveAssign? && a.source == h)
  }

  /** Actions of others leave a member alone. */
  lemma {:induction false} OthersLeave(s: State, h: nat, actions: seq<Action>)
    requires h in s.members && forall i :: 0 <= i < |actions| ==> !Mentions(actions[i], h)
    ensures h in Run(s, actions).members && Run(s, actions).members[h] == s.members[h]
    ensures h in s.busy <==> h in Run(s, actions).busy
    decreases |actions|
  {
    if actions != [] {
      OthersLeave(Step(s, actions[0]), h, actions[1..]);
    }
  }

  /**
   A pool client whose request threw resets its member: whatever happens elsewhere
   between the failure and the reset, the connection is destroyed, it was marked before
   the reset, and no later checkout ever gets it.
   */
  lemma FailedClientDiscards(actions: seq<Action>, h: nat, others: seq<Action>, later: seq<Action>)
    requires h in Run(INITIAL, actions).busy
    requires forall i :: 0 <= i < |others| ==> !Mentions(others[i], h)
    ensures Holds(Run(INITIAL, actions), h)
    ensures var c := Run(INITIAL, actions).members[h].value;
      var s := Run(INITIAL, actions + [Answer(h, false)] + others + [Drop(h)] + later);
      IsGone(s, c) && !IsIdle(s, c) && !IsHeld(s, c)
  {
    InvAlways(INITIAL, actions);
    var s := Run(INITIAL, actions);
    var c := s.members[h].value;
    var first := actions + [Answer(h, false)];
    RunAppend(INITIAL, actions, [Answer(h, false)]);
    var s1 := Run(INITIAL, first);
    assert s1 == Run(Answered(s, h, false), []);
    RunAppend(INITIAL, first, others);
    OthersLeave(s1, h, others);
    RunMonotone(s1, others);
    var s2 := Run(INITIAL, first + others);
    RunAppend(INITIAL, first + others, [Drop(h)]);
    var s3 := Run(INITIAL, first + others + [Drop(h)]);
    assert s3 == Run(Dropped(s2, h), []);
    RunAppend(INITIAL, first + others + [Drop(h)], later);
    RunMonotone(s3, later);
    InvAlways(INITIAL, first + others + [Drop(h)] + later);
    assert OnePlace(Run(INITIAL, first + others + [Drop(h)] + later), c);
  }

  /**
   A held connection that no request has failed on is destroyed by one action only:
   assigning to the member that holds it.
   */
  lemma UnmarkedLostIff(s: State, a: Action, c: nat, h: nat)
    requires Inv(s) && HeldBy(s, c, h) && c !in s.perished
    ensures IsGone(Step(s, a), c) <==> a.MoveAssign? && Enabled(s, a) && a.h == h
  {
    HeldIsNotIdle(s, c, h);
    assert OnePlace(s, c);
    hide Conserved, Healthy, Numbered;
    match a
    case MoveAssign(source, k) =>
      if Enabled(s, a) && Holds(s, k) {
        assert HeldBy(s, s.members[k].value, k);
        assert s.members[k].value == c <==> k == h;
      }
    case Drop(k) =>
      if Enabled(s, a) && Holds(s, k) {
        assert HeldBy(s, s.members[k].value, k);
      }
    case _ =>
  }

  /** Two checkouts and an assignment lose a connection on which nothing ever failed. */
  lemma AssignmentLoses()
    ensures var s := Run(INITIAL, Connects(2) + [MoveAssign(0, 1)]);
      IsGone(s, 1) && s.perished == {}
  {
    RunAppend(INITIAL, Connects(2), [MoveAssign(0, 1)]);
    var s := Run(INITIAL, Connects(2));
    assert Connects(1) == [Checkout(0), ConnectDone(0)];
    assert Connects(2) == [Checkout(0), ConnectDone(0), Checkout(1), ConnectDone(1)];
    var s1 := Step(Step(INITIAL, Checkout(0)), ConnectDone(0));
    var s2 := Step(Step(s1, Checkout(1)), ConnectDone(1));
    assert Connects(2)[1..] == [ConnectDone(0), Checkout(1), ConnectDone(1)];
    assert Connects(2)[1..][1..] == [Checkout(1), ConnectDone(1)];
    assert [Checkout(1), ConnectDone(1)][1..] == [ConnectDone(1)];
    assert s == Run(s1, [Checkout(1), ConnectDone(1)]) == Run(s2, []);
    assert s.members[1] == Some(1) && 0 in s.members;
    assert Run(s, [MoveAssign(0, 1)]) == Run(Step(s, MoveAssign(0, 1)), []);
  }

  /** Over a whole run: a connection that was destroyed unmarked was lost to such an assignment. */
  lemma {:induction false} LostByAssignment(s: State, actions: seq<Action>, c: nat) returns (k: nat)
    requires Inv(s) && !IsGone(s, c)
    requires IsGone(Run(s, actions), c) && c !in Run(s, actions).perished
    ensures k < |actions|
    ensures var t := Run(s, actions[..k]);
      actions[k].MoveAssign? && Enabled(t, actions[k]) && HeldBy(t, c, actions[k].h)
    decreases |actions|
  {
    var t := Step(s, actions[0]);
    if IsGone(t, c) {
      k := 0;
      RunMonotone(t, actions[1..]);
      StepMonotone(s, actions[0]);
      OnlyHeldAreDestroyed(s, actions[0], c);
      var h: nat :| HeldBy(s, c, h);
      UnmarkedLostIff(s, actions[0], c, h);
      assert actions[..0] == [];
    } else {
      StepConserves(s, actions[0]);
      StepHealthy(s, actions[0]);
      StepNumbered(s, actions[0]);
      k := LostByAssignment(t, actions[1..], c);
      assert actions[..k + 1][0] == actions[0] && actions[..k + 1][1..] == actions[1..][..k];
      k := k + 1;
    }
  }

  lemma OnlyHeldAreDestroyed(s: State, a: Action, c: nat)
    requires !IsGone(s, c) && IsGone(Step(s, a), c)
    ensures IsHeld(s, c)
  {
    assert (a.Drop? || a.MoveAssign?) && HeldBy(s, c, a.h);
  }

  /** A connection returned unmarked is the one the next checkout gets. */
  lemma ReturnedIsReused(s: State, h: nat, k: nat)
    requires Inv(s) && Enabled(s, Drop(h)) && Holds(s, h) && s.members[h].value !in s.perished
    requires Enabled(Step(s, Drop(h)), Checkout(k))
    ensures var t := Step(Step(s, Drop(h)), Checkout(k));
      t.members == s.members - {h} + map[k := s.members[h]] && t.idle == s.idle && t.destroyed == s.destroyed
  {
  }
}

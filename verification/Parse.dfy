/**
 The declarative document parser (`include/bson/parse.hpp`). Rules are pure: they
 map an element to an outcome. The one-pass `doc` parser offers every element to
 its parts in order until one of them accepts or errors, remembers in each part
 what happened, and stops early on an error or when no part is looking any more.
 */
module Parse {
  import opened Bytes
  import opened Document

  datatype PState = Reject | Accept | Error

  // ----- rules for one element

  datatype Rule =
    | Pure(f: Element -> PState)
    | Any(rules: seq<Rule>)
    | All(rules: seq<Rule>)
    | Must(rule: Rule)
    | Field(key: seq<byte>, rule: Rule)

  function Apply(r: Rule, e: Element): PState
    decreases r, 1
  {
    match r
    case Pure(f) => f(e)
    case Any(rules) => AnyState(RunAny(rules, e))
    case All(rules) => AllState(RunAll(rules, e), |rules|)
    case Must(rule) => if Apply(rule, e) == Reject then Error else Apply(rule, e)
    case Field(key, rule) => if e.key != key then Reject else Apply(rule, e)
  }

  /** The outcomes of the rules that `any` invokes: up to the first one that does not reject. */
  function RunAny(rules: seq<Rule>, e: Element): seq<PState>
    decreases rules, 0
  {
    if rules == [] then []
    else
      var s := Apply(rules[0], e);
      if s != Reject then [s] else [s] + RunAny(rules[1..], e)
  }

  /** `any::result::state`: an acceptance wins over an error. */
  function AnyState(subs: seq<PState>): PState {
    if Accept in subs then Accept else if Error in subs then Error else Reject
  }

  /** The outcomes of the rules that `all` invokes: up to the first one that does not accept. */
  function RunAll(rules: seq<Rule>, e: Element): seq<PState>
    decreases rules, 0
  {
    if rules == [] then []
    else
      var s := Apply(rules[0], e);
      if s != Accept then [s] else [s] + RunAll(rules[1..], e)
  }

  /** `all::result::state`, where rules that were not invoked have no result. */
  function AllState(subs: seq<PState>, n: nat): PState {
    if |subs| == n && forall k :: 0 <= k < |subs| ==> subs[k] == Accept then Accept
    else if Error in subs then Error
    else Reject
  }

  /** `any` decides by the first rule that does not reject. */
  lemma {:induction false} AnyIsFirstDecision(rules: seq<Rule>, e: Element) returns (k: nat)
    ensures k <= |rules| && forall i :: 0 <= i < k ==> Apply(rules[i], e) == Reject
    ensures k < |rules| ==> Apply(rules[k], e) != Reject && Apply(Any(rules), e) == Apply(rules[k], e)
    ensures k == |rules| ==> Apply(Any(rules), e) == Reject
  {
    if rules == [] || Apply(rules[0], e) != Reject {
      k := 0;
    } else {
      k := AnyIsFirstDecision(rules[1..], e);
      var rest := RunAny(rules[1..], e);
      assert RunAny(rules, e) == [Reject] + rest;
      assert forall s :: s in [Reject] + rest <==> s == Reject || s in rest;
      assert forall i :: 0 < i < |rules| ==> rules[i] == rules[1..][i - 1];
      k := k + 1;
    }
  }

  /** `all` decides by the first rule that does not accept. */
  lemma {:induction false} AllIsFirstRefusal(rules: seq<Rule>, e: Element) returns (k: nat)
    ensures k <= |rules| && forall i :: 0 <= i < k ==> Apply(rules[i], e) == Accept
    ensures k < |rules| ==> Apply(rules[k], e) != Accept && Apply(All(rules), e) == Apply(rules[k], e)
    ensures k == |rules| ==> Apply(All(rules), e) == Accept
  {
    if rules == [] {
      k := 0;
    } else if Apply(rules[0], e) != Accept {
      k := 0;
      var s := Apply(rules[0], e);
      assert RunAll(rules, e) == [s] && [s][0] != Accept;
      assert forall t :: t in [s] <==> t == s;
    } else {
      k := AllIsFirstRefusal(rules[1..], e);
      var rest := RunAll(rules[1..], e);
      assert RunAll(rules, e) == [Accept] + rest;
      assert forall s :: s in [Accept] + rest <==> s == Accept || s in rest;
      assert forall i :: 0 < i < |rules| ==> rules[i] == rules[1..][i - 1];
      AllStateCons(rest, |rules| - 1);
      k := k + 1;
    }
  }

  lemma AllStateCons(rest: seq<PState>, n: nat)
    ensures AllState([Accept] + rest, n + 1) == AllState(rest, n)
  {
    var s := [Accept] + rest;
    assert forall k :: 0 <= k < |rest| ==> rest[k] == s[k + 1];
    assert Error in s <==> Error in rest;
  }

  // ----- parts of a document parser

  /** A part: an optional rule, a required one (`must<R>`, which applies `R`), or `reject_others`. */
  datatype Spec = Optional(rule: Rule) | Required(rule: Rule) | RejectOthers

  /** What a part remembers. */
  datatype Memory = Memory(didAccept: bool, didError: bool, gotKey: bool)

  const FRESH := Memory(false, false, false)

  function Done(spec: Spec, m: Memory): bool {
    if spec.RejectOthers? then m.gotKey else m.didAccept
  }

  function Final(spec: Spec, m: Memory): PState {
    match spec
    case Optional(_) => if m.didError then Error else Accept
    case Required(_) => if m.didError then Error else if !m.didAccept then Reject else Accept
    case RejectOthers => if m.gotKey then Reject else Accept
  }

  /** The outcome that a part reports for an element. */
  function Answer(spec: Spec, m: Memory, e: Element): PState {
    if spec.RejectOthers? || m.didAccept then Reject else Apply(spec.rule, e)
  }

  /** The memory of a part after it handled an element. */
  function Remember(spec: Spec, m: Memory, e: Element): Memory {
    if spec.RejectOthers? then m.(gotKey := true)
    else if m.didAccept then m
    else
      match Apply(spec.rule, e)
      case Accept => m.(didAccept := true)
      case Error => m.(didError := true)
      case Reject => m
  }

  /** Offer an element to the parts in order, up to the first that does not reject. */
  function Offer(specs: seq<Spec>, ms: seq<Memory>, e: Element): (r: (seq<Memory>, PState))
    requires |specs| == |ms|
    ensures |r.0| == |ms|
  {
    if specs == [] then ([], Reject)
    else
      var answer := Answer(specs[0], ms[0], e);
      var m := Remember(specs[0], ms[0], e);
      if answer != Reject then ([m] + ms[1..], answer)
      else
        var rest := Offer(specs[1..], ms[1..], e);
        ([m] + rest.0, rest.1)
  }

  predicate AllDone(specs: seq<Spec>, ms: seq<Memory>)
    requires |specs| == |ms|
  {
    forall p :: 0 <= p < |specs| ==> Done(specs[p], ms[p])
  }

  /** `doc::stateful::parse` on the remaining elements. */
  function Run(specs: seq<Spec>, ms: seq<Memory>, es: seq<Element>): (r: seq<Memory>)
    requires |specs| == |ms|
    ensures |r| == |ms|
    decreases |es|
  {
    if es == [] || AllDone(specs, ms) then ms
    else
      var (ms', merged) := Offer(specs, ms, es[0]);
      if merged == Error then ms' else Run(specs, ms', es[1..])
  }

  /** `final_result::state`. */
  function Verdict(specs: seq<Spec>, ms: seq<Memory>): PState
    requires |specs| == |ms|
  {
    if exists p :: 0 <= p < |specs| && Final(specs[p], ms[p]) == Error then Error
    else if exists p :: 0 <= p < |specs| && Final(specs[p], ms[p]) != Accept then Reject
    else Accept
  }

  function FreshAll(n: nat): (ms: seq<Memory>)
    ensures |ms| == n
  {
    seq(n, _ => FRESH)
  }

  function ParseDoc(specs: seq<Spec>, es: seq<Element>): PState {
    Verdict(specs, Run(specs, FreshAll(|specs|), es))
  }

  // ----- the objects that run it

  class Part {
    const spec: Spec
    var didAccept: bool
    var didError: bool
    var gotKey: bool

    constructor (spec: Spec)
      ensures this.spec == spec && Memo() == FRESH
    {
      this.spec := spec;
      didAccept, didError, gotKey := false, false, false;
    }

    function Memo(): Memory
      reads this
    {
      Memory(didAccept, didError, gotKey)
    }

    method HandleElement(e: Element) returns (s: PState)
      modifies this
      ensures s == old(Answer(spec, Memo(), e))
      ensures Memo() == old(Remember(spec, Memo(), e))
    {
      if spec.RejectOthers? {
        gotKey := true;
        return Reject;
      }
      if didAccept {
        return Reject;
      }
      s := Apply(spec.rule, e);
      if s == Accept {
        didAccept := true;
      } else if s == Error {
        didError := true;
      }
    }
  }

  class DocParser {
    const parts: seq<Part>

    ghost predicate Distinct() {
      forall p, q :: 0 <= p < q < |parts| ==> parts[p] != parts[q]
    }

    ghost function Specs(): (r: seq<Spec>)
      ensures |r| == |parts|
    {
      seq(|parts|, p requires 0 <= p < |parts| => parts[p].spec)
    }

    ghost function Memos(): (r: seq<Memory>)
      reads parts
      ensures |r| == |parts|
      ensures forall p :: 0 <= p < |parts| ==> r[p] == parts[p].Memo()
    {
      seq(|parts|, p requires 0 <= p < |parts| reads parts => parts[p].Memo())
    }

    constructor (parts: seq<Part>)
      ensures this.parts == parts
    {
      this.parts := parts;
    }

    /** The fold over the parts for one element. */
    method OfferElement(e: Element) returns (merged: PState)
      requires Distinct()
      modifies parts
      ensures (Memos(), merged) == Offer(Specs(), old(Memos()), e)
    {
      var p := 0;
      merged := Reject;
      assert Specs()[0..] == Specs() && Memos()[0..] == Memos();
      assert forall s: seq<Memory> :: Memos()[..0] + s == s;
      while p < |parts| && merged == Reject
        invariant 0 <= p <= |parts|
        invariant forall q :: p <= q < |parts| ==> parts[q].Memo() == old(Memos())[q]
        invariant OfferedUpTo(Specs(), old(Memos()), Memos(), e, p, merged)
      {
        ghost var before := Memos();
        merged := parts[p].HandleElement(e);
        OfferedOneMore(Specs(), old(Memos()), before, Memos(), e, p, merged);
        p := p + 1;
      }
      if merged == Reject {
        assert Specs()[p..] == [] && Memos()[..p] + [] == Memos();
      }
    }

    /** `doc::stateful::parse`. */
    method Parse(es: seq<Element>) returns (state: PState)
      requires Distinct()
      modifies parts
      ensures Memos() == Run(Specs(), old(Memos()), es)
      ensures state == Verdict(Specs(), Memos())
    {
      var i := 0;
      while i < |es|
        invariant 0 <= i <= |es|
        invariant Run(Specs(), Memos(), es[i..]) == Run(Specs(), old(Memos()), es)
      {
        if forall p :: 0 <= p < |parts| ==> Done(parts[p].spec, parts[p].Memo()) {
          break;
        }
        assert es[i..][0] == es[i] && es[i..][1..] == es[i + 1..];
        var merged := OfferElement(es[i]);
        if merged == Error {
          assert Memos() == Run(Specs(), old(Memos()), es);
          state := FinalState();
          return;
        }
        i := i + 1;
      }
      state := FinalState();
    }

    method FinalState() returns (state: PState)
      ensures state == Verdict(Specs(), Memos())
    {
      if exists p :: 0 <= p < |parts| && Final(parts[p].spec, parts[p].Memo()) == Error {
        return Error;
      }
      if exists p :: 0 <= p < |parts| && Final(parts[p].spec, parts[p].Memo()) != Accept {
        return Reject;
      }
      return Accept;
    }
  }

  /** After `p` parts were offered the element, the rest of the fold gives the whole result. */
  ghost predicate OfferedUpTo(
      specs: seq<Spec>, was: seq<Memory>, now: seq<Memory>, e: Element, p: nat, merged: PState)
    requires |specs| == |was| == |now| && p <= |specs|
  {
    var whole := Offer(specs, was, e);
    if merged != Reject then (now, merged) == whole
    else
      var rest := Offer(specs[p..], was[p..], e);
      whole == (now[..p] + rest.0, rest.1)
  }

  lemma OfferedOneMore(
      specs: seq<Spec>, was: seq<Memory>, before: seq<Memory>, now: seq<Memory>, e: Element, p: nat, merged: PState)
    requires |specs| == |was| == |before| == |now| && p < |specs|
    requires OfferedUpTo(specs, was, before, e, p, Reject) && before[p..] == was[p..]
    requires now == before[p := Remember(specs[p], was[p], e)] && merged == Answer(specs[p], was[p], e)
    ensures OfferedUpTo(specs, was, now, e, p + 1, merged)
  {
    assert specs[p..][1..] == specs[p + 1..] && was[p..][1..] == was[p + 1..];
    var m := Remember(specs[p], was[p], e);
    if merged != Reject {
      assert now == before[..p] + ([m] + was[p + 1..]);
    } else {
      var rest := Offer(specs[p + 1..], was[p + 1..], e);
      assert before[..p] + ([m] + rest.0) == now[..p + 1] + rest.0;
    }
  }

  // ----- the specification, part by part

  /**
   What part `p` decides on the first `n` elements: the first outcome other than a
   rejection that its rule has on an element that is offered to it.
   */
  ghost function Decision(specs: seq<Spec>, p: nat, es: seq<Element>, n: nat): PState
    requires p < |specs| && n <= |es|
    decreases n, 0
  {
    if n == 0 || specs[p].RejectOthers? then Reject
    else
      var before := Decision(specs, p, es, n - 1);
      if before != Reject then before
      else if Offered(specs, p, es, n - 1) then Apply(specs[p].rule, es[n - 1])
      else Reject
  }

  /** Element `i` is offered to part `p`: every earlier part is satisfied already, or rejects it. */
  ghost predicate Offered(specs: seq<Spec>, p: nat, es: seq<Element>, i: nat)
    requires p <= |specs| && i < |es|
    decreases i, 1
  {
    forall q :: 0 <= q < p ==>
      specs[q].RejectOthers? || Decision(specs, q, es, i) == Accept || Apply(specs[q].rule, es[i]) == Reject
  }

  ghost predicate SeesSome(specs: seq<Spec>, p: nat, es: seq<Element>, n: nat)
    requires p <= |specs| && n <= |es|
  {
    exists i :: 0 <= i < n && Offered(specs, p, es, i)
  }

  /**
   The verdict by looking at what each part decides: an error if some part decides so;
   otherwise a rejection if a required part never decides to accept, or a
   `reject_others` part is offered an element; otherwise acceptance.
   */
  ghost function PerPartVerdict(specs: seq<Spec>, es: seq<Element>): PState {
    if exists p :: 0 <= p < |specs| && Decision(specs, p, es, |es|) == Error then Error
    else if exists p :: 0 <= p < |specs| && specs[p].Required? && Decision(specs, p, es, |es|) != Accept then Reject
    else if exists p :: 0 <= p < |specs| && specs[p].RejectOthers? && SeesSome(specs, p, es, |es|) then Reject
    else Accept
  }

  // ----- the one-pass parser meets it

  ghost predicate Reached(specs: seq<Spec>, ms: seq<Memory>, e: Element, p: nat)
    requires |specs| == |ms| && p <= |specs|
  {
    forall q :: 0 <= q < p ==> Answer(specs[q], ms[q], e) == Reject
  }

  /** The memory of part `p` after the element was offered. */
  ghost function Expected(specs: seq<Spec>, ms: seq<Memory>, e: Element, p: nat): Memory
    requires |specs| == |ms| && p < |specs|
  {
    if Reached(specs, ms, e, p) then Remember(specs[p], ms[p], e) else ms[p]
  }

  /** What offering an element does to each part. */
  lemma {:induction false} OfferPointwise(specs: seq<Spec>, ms: seq<Memory>, e: Element)
    requires |specs| == |ms|
    ensures var (ms', merged) := Offer(specs, ms, e);
      && (forall p :: 0 <= p < |specs| ==> ms'[p] == Expected(specs, ms, e, p))
      && (merged == Reject ==> Reached(specs, ms, e, |specs|))
      && (merged != Reject ==>
            exists p :: 0 <= p < |specs| && Reached(specs, ms, e, p) && Answer(specs[p], ms[p], e) == merged)
  {
    if specs != [] {
      var answer := Answer(specs[0], ms[0], e);
      var (ms', merged) := Offer(specs, ms, e);
      assert Reached(specs, ms, e, 0);
      if answer != Reject {
        forall p | 0 < p < |specs|
          ensures ms'[p] == ms[p] && !Reached(specs, ms, e, p)
        {
        }
      } else {
        var specs1, ms1 := specs[1..], ms[1..];
        OfferPointwise(specs1, ms1, e);
        forall p | 0 < p <= |specs|
          ensures Reached(specs, ms, e, p) <==> Reached(specs1, ms1, e, p - 1)
        {
          ReachedTail(specs, ms, e, p);
        }
        if merged != Reject {
          var p :| 0 <= p < |specs1| && Reached(specs1, ms1, e, p) && Answer(specs1[p], ms1[p], e) == merged;
          assert Reached(specs, ms, e, p + 1) && Answer(specs[p + 1], ms[p + 1], e) == merged;
        }
      }
    }
  }

  lemma ReachedTail(specs: seq<Spec>, ms: seq<Memory>, e: Element, p: nat)
    requires |specs| == |ms| && 0 < p <= |specs| && Answer(specs[0], ms[0], e) == Reject
    ensures Reached(specs, ms, e, p) <==> Reached(specs[1..], ms[1..], e, p - 1)
  {
    assert forall q :: 0 <= q < p - 1 ==> Answer(specs[1..][q], ms[1..][q], e) == Answer(specs[q + 1], ms[q + 1], e);
    if Reached(specs[1..], ms[1..], e, p - 1) {
      forall q | 0 <= q < p
        ensures Answer(specs[q], ms[q], e) == Reject
      {
        if q > 0 {
          assert Answer(specs[1..][q - 1], ms[1..][q - 1], e) == Reject;
        }
      }
    }
  }

  /** The memories after the first `n` elements, none of which was decided with an error. */
  ghost predicate After(specs: seq<Spec>, ms: seq<Memory>, es: seq<Element>, n: nat)
    requires n <= |es|
  {
    |specs| == |ms| && forall p :: 0 <= p < |specs| ==> AfterPart(specs, ms[p], es, n, p)
  }

  ghost predicate AfterPart(specs: seq<Spec>, m: Memory, es: seq<Element>, n: nat, p: nat)
    requires n <= |es| && p < |specs|
  {
    if specs[p].RejectOthers? then m == Memory(false, false, SeesSome(specs, p, es, n))
    else
      var s := Decision(specs, p, es, n);
      s != Error && m == Memory(s == Accept, false, false)
  }

  /** The part decided with an error, and it remembers that. */
  ghost predicate Failed(specs: seq<Spec>, m: Memory, es: seq<Element>, n: nat, p: nat)
    requires n <= |es| && p < |specs|
  {
    Decision(specs, p, es, n) == Error && Final(specs[p], m) == Error
  }

  lemma ReachedIsOffered(specs: seq<Spec>, ms: seq<Memory>, es: seq<Element>, n: nat, p: nat)
    requires n < |es| && After(specs, ms, es, n) && p <= |specs|
    ensures Reached(specs, ms, es[n], p) <==> Offered(specs, p, es, n)
  {
    forall q | 0 <= q < p
      ensures Answer(specs[q], ms[q], es[n]) == Reject <==>
        specs[q].RejectOthers? || Decision(specs, q, es, n) == Accept || Apply(specs[q].rule, es[n]) == Reject
    {
      assert AfterPart(specs, ms[q], es, n, q);
    }
  }

  lemma SeesOneMore(specs: seq<Spec>, p: nat, es: seq<Element>, n: nat)
    requires p <= |specs| && n < |es|
    ensures SeesSome(specs, p, es, n + 1) <==> SeesSome(specs, p, es, n) || Offered(specs, p, es, n)
  {
  }

  /** Of the parts an element reaches, only the last one can have decided on it. */
  lemma OnlyAnswer(specs: seq<Spec>, ms: seq<Memory>, e: Element, p: nat, q: nat)
    requires |specs| == |ms| && p < |specs| && q < |specs|
    requires Reached(specs, ms, e, p) && Reached(specs, ms, e, q)
    requires Answer(specs[p], ms[p], e) != Reject && Answer(specs[q], ms[q], e) != Reject
    ensures p == q
  {
  }

  lemma OfferKeepsAfter(specs: seq<Spec>, ms: seq<Memory>, es: seq<Element>, n: nat)
    requires n < |es| && After(specs, ms, es, n)
    ensures var (ms', merged) := Offer(specs, ms, es[n]);
      && (merged != Error ==> After(specs, ms', es, n + 1))
      && (merged == Error ==> exists p :: 0 <= p < |specs| && Failed(specs, ms'[p], es, n + 1, p))
  {
    hide Offer, Offered, SeesSome;
    OfferPointwise(specs, ms, es[n]);
    var (ms', merged) := Offer(specs, ms, es[n]);
    if merged == Error {
      var p :| 0 <= p < |specs| && Reached(specs, ms, es[n], p) && Answer(specs[p], ms[p], es[n]) == Error;
      assert AfterPart(specs, ms[p], es, n, p);
      ReachedIsOffered(specs, ms, es, n, p);
      assert Failed(specs, ms'[p], es, n + 1, p);
    } else {
      forall p | 0 <= p < |specs|
        ensures AfterPart(specs, ms'[p], es, n + 1, p)
      {
        PartKeepsAfter(specs, ms, es, n, p, merged);
      }
    }
  }

  lemma PartKeepsAfter(specs: seq<Spec>, ms: seq<Memory>, es: seq<Element>, n: nat, p: nat, merged: PState)
    requires n < |es| && After(specs, ms, es, n) && p < |specs| && merged != Error
    requires merged == Reject ==> Reached(specs, ms, es[n], |specs|)
    requires merged != Reject ==>
      exists q :: 0 <= q < |specs| && Reached(specs, ms, es[n], q) && Answer(specs[q], ms[q], es[n]) == merged
    ensures AfterPart(specs, Expected(specs, ms, es[n], p), es, n + 1, p)
  {
    hide Offered, SeesSome;
    assert AfterPart(specs, ms[p], es, n, p);
    ReachedIsOffered(specs, ms, es, n, p);
    SeesOneMore(specs, p, es, n);
    if Reached(specs, ms, es[n], p) && Answer(specs[p], ms[p], es[n]) != Reject {
      if merged != Reject {
        var q :| 0 <= q < |specs| && Reached(specs, ms, es[n], q) && Answer(specs[q], ms[q], es[n]) == merged;
        OnlyAnswer(specs, ms, es[n], p, q);
      }
      assert Answer(specs[p], ms[p], es[n]) != Error;
    }
  }

  /** Decisions are final. */
  lemma {:induction false} DecisionStays(specs: seq<Spec>, p: nat, es: seq<Element>, n: nat, m: nat)
    requires p < |specs| && n <= m <= |es| && Decision(specs, p, es, n) != Reject
    ensures Decision(specs, p, es, m) == Decision(specs, p, es, n)
    decreases m
  {
    if n < m {
      DecisionStays(specs, p, es, n, m - 1);
    }
  }

  /** When no part is looking any more, the remaining elements change nothing. */
  lemma DoneIsEnd(specs: seq<Spec>, ms: seq<Memory>, es: seq<Element>, n: nat)
    requires n <= |es| && After(specs, ms, es, n) && AllDone(specs, ms)
    ensures After(specs, ms, es, |es|)
  {
    forall p | 0 <= p < |specs|
      ensures AfterPart(specs, ms[p], es, |es|, p)
    {
      assert Done(specs[p], ms[p]) && AfterPart(specs, ms[p], es, n, p);
      if !specs[p].RejectOthers? {
        DecisionStays(specs, p, es, n, |es|);
      }
    }
  }

  lemma VerdictAtEnd(specs: seq<Spec>, ms: seq<Memory>, es: seq<Element>)
    requires After(specs, ms, es, |es|)
    ensures Verdict(specs, ms) == PerPartVerdict(specs, es)
  {
    hide Decision, SeesSome;
    forall p | 0 <= p < |specs|
      ensures Final(specs[p], ms[p]) != Error && (specs[p].RejectOthers? || Decision(specs, p, es, |es|) != Error)
      ensures Final(specs[p], ms[p]) == Reject <==>
        if specs[p].RejectOthers? then SeesSome(specs, p, es, |es|)
        else specs[p].Required? && Decision(specs, p, es, |es|) != Accept
    {
      assert AfterPart(specs, ms[p], es, |es|, p);
    }
    OthersDecideNothing(specs, es);
    if Verdict(specs, ms) == Reject {
      var p :| 0 <= p < |specs| && Final(specs[p], ms[p]) != Accept;
      assert Final(specs[p], ms[p]) == Reject;
    } else {
      assert forall p :: 0 <= p < |specs| ==> Final(specs[p], ms[p]) == Accept;
    }
  }

  lemma OthersDecideNothing(specs: seq<Spec>, es: seq<Element>)
    ensures forall p :: 0 <= p < |specs| && specs[p].RejectOthers? ==> Decision(specs, p, es, |es|) == Reject
  {
  }

  lemma {:induction false} RunMeetsSpec(specs: seq<Spec>, ms: seq<Memory>, es: seq<Element>, n: nat)
    requires n <= |es| && After(specs, ms, es, n)
    ensures Verdict(specs, Run(specs, ms, es[n..])) == PerPartVerdict(specs, es)
    decreases |es| - n
  {
    hide AfterPart, PerPartVerdict, Decision;
    if n == |es| {
      VerdictAtEnd(specs, ms, es);
    } else if AllDone(specs, ms) {
      DoneIsEnd(specs, ms, es, n);
      VerdictAtEnd(specs, ms, es);
    } else {
      assert es[n..][0] == es[n] && es[n..][1..] == es[n + 1..];
      OfferKeepsAfter(specs, ms, es, n);
      var (ms', merged) := Offer(specs, ms, es[n]);
      if merged == Error {
        var p :| 0 <= p < |specs| && Failed(specs, ms'[p], es, n + 1, p);
        DecisionStays(specs, p, es, n + 1, |es|);
        ErrorVerdict(specs, es, p);
      } else {
        RunMeetsSpec(specs, ms', es, n + 1);
      }
    }
  }

  lemma ErrorVerdict(specs: seq<Spec>, es: seq<Element>, p: nat)
    requires p < |specs| && Decision(specs, p, es, |es|) == Error
    ensures PerPartVerdict(specs, es) == Error
  {
    hide Decision;
  }

  /** The one-pass parser gives the per-part verdict, for any parts. */
  lemma ParserMeetsSpec(specs: seq<Spec>, es: seq<Element>)
    ensures ParseDoc(specs, es) == PerPartVerdict(specs, es)
  {
    hide PerPartVerdict;
    forall p | 0 <= p < |specs|
      ensures AfterPart(specs, FRESH, es, 0, p)
    {
    }
    RunMeetsSpec(specs, FreshAll(|specs|), es, 0);
    assert es[0..] == es;
  }

  // ----- parts that do not compete

  /** The first outcome other than a rejection that a rule has on the first `n` elements. */
  function FirstDecision(rule: Rule, es: seq<Element>, n: nat): PState
    requires n <= |es|
  {
    if n == 0 then Reject
    else
      var before := FirstDecision(rule, es, n - 1);
      if before != Reject then before else Apply(rule, es[n - 1])
  }

  /** No element interests two parts. */
  ghost predicate Exclusive(specs: seq<Spec>, es: seq<Element>) {
    forall i :: 0 <= i < |es| ==> ExclusiveAt(specs, es[i])
  }

  ghost predicate ExclusiveAt(specs: seq<Spec>, e: Element) {
    forall p, q :: 0 <= p < q < |specs| && !specs[p].RejectOthers? && !specs[q].RejectOthers? ==>
      Apply(specs[p].rule, e) == Reject || Apply(specs[q].rule, e) == Reject
  }

  /** Then each part decides as if it were alone. */
  lemma {:induction false} DecidesAlone(specs: seq<Spec>, p: nat, es: seq<Element>, n: nat)
    requires Exclusive(specs, es) && p < |specs| && !specs[p].RejectOthers? && n <= |es|
    ensures Decision(specs, p, es, n) == FirstDecision(specs[p].rule, es, n)
  {
    if n > 0 {
      DecidesAlone(specs, p, es, n - 1);
      assert ExclusiveAt(specs, es[n - 1]);
    }
  }

  /** Optional and required fields with pairwise distinct keys, and `reject_others`. */
  ghost predicate FieldParts(specs: seq<Spec>) {
    && (forall p :: 0 <= p < |specs| && !specs[p].RejectOthers? ==> specs[p].rule.Field?)
    && (forall p, q :: 0 <= p < q < |specs| && !specs[p].RejectOthers? && !specs[q].RejectOthers? ==>
          specs[p].rule.key != specs[q].rule.key)
  }

  lemma FieldPartsExclusive(specs: seq<Spec>, es: seq<Element>)
    requires FieldParts(specs)
    ensures Exclusive(specs, es)
  {
  }

  /**
   Field by field: the parser errs exactly if some field's first decision on its own is
   an error; otherwise it rejects exactly if a required field's is not to accept, or a
   `reject_others` part is offered an element; otherwise it accepts.
   */
  lemma FieldVerdict(specs: seq<Spec>, es: seq<Element>)
    requires FieldParts(specs)
    ensures var errs := exists p ::
        0 <= p < |specs| && !specs[p].RejectOthers? && FirstDecision(specs[p].rule, es, |es|) == Error;
      var misses := exists p ::
        0 <= p < |specs| && specs[p].Required? && FirstDecision(specs[p].rule, es, |es|) != Accept;
      var others := exists p :: 0 <= p < |specs| && specs[p].RejectOthers? && SeesSome(specs, p, es, |es|);
      ParseDoc(specs, es) == if errs then Error else if misses || others then Reject else Accept
  {
    hide Decision, FirstDecision, SeesSome, ParseDoc;
    FieldPartsExclusive(specs, es);
    ParserMeetsSpec(specs, es);
    OthersDecideNothing(specs, es);
    forall p | 0 <= p < |specs| && !specs[p].RejectOthers?
      ensures Decision(specs, p, es, |es|) == FirstDecision(specs[p].rule, es, |es|)
    {
      DecidesAlone(specs, p, es, |es|);
    }
  }

  // ----- leaving early

  /** The parser without the exit for parts that are all done. */
  function RunOn(specs: seq<Spec>, ms: seq<Memory>, es: seq<Element>): (r: seq<Memory>)
    requires |specs| == |ms|
    ensures |r| == |ms|
    decreases |es|
  {
    if es == [] then ms
    else
      var (ms', merged) := Offer(specs, ms, es[0]);
      if merged == Error then ms' else RunOn(specs, ms', es[1..])
  }

  lemma {:induction false} OfferToDone(specs: seq<Spec>, ms: seq<Memory>, e: Element)
    requires |specs| == |ms| && AllDone(specs, ms)
    ensures Offer(specs, ms, e) == (ms, Reject)
  {
    if specs != [] {
      forall p | 0 <= p < |specs[1..]|
        ensures Done(specs[1..][p], ms[1..][p])
      {
        assert Done(specs[p + 1], ms[p + 1]);
      }
      assert Done(specs[0], ms[0]);
      OfferToDone(specs[1..], ms[1..], e);
      assert [ms[0]] + ms[1..] == ms;
    }
  }

  /** Stopping when all parts are done never changes what any part remembers; for any rules. */
  lemma {:induction false} EarlyExitIsHarmless(specs: seq<Spec>, ms: seq<Memory>, es: seq<Element>)
    requires |specs| == |ms|
    ensures Run(specs, ms, es) == RunOn(specs, ms, es)
    decreases |es|
  {
    if es != [] {
      if AllDone(specs, ms) {
        OfferToDone(specs, ms, es[0]);
        EarlyExitIsHarmless(specs, ms, es[1..]);
      } else {
        EarlyExitIsHarmless(specs, Offer(specs, ms, es[0]).0, es[1..]);
      }
    }
  }

  // ----- required fields, compared with searching for each key

  /** `require(key, rule)` for each pair, as parts of `doc`. */
  function RequireParts(fields: seq<(seq<byte>, Rule)>): (specs: seq<Spec>)
    ensures |specs| == |fields|
    ensures forall p :: 0 <= p < |fields| ==> specs[p] == Required(Field(fields[p].0, fields[p].1))
  {
    seq(|fields|, p requires 0 <= p < |fields| => Required(Field(fields[p].0, fields[p].1)))
  }

  ghost predicate DistinctKeys(fields: seq<(seq<byte>, Rule)>) {
    forall p, q :: 0 <= p < q < |fields| ==> fields[p].0 != fields[q].0
  }

  /** The index of the first element with the key, or the number of elements. */
  function FirstIndex(key: seq<byte>, es: seq<Element>): (i: nat)
    ensures i <= |es| && (forall j :: 0 <= j < i ==> es[j].key != key)
    ensures i < |es| ==> es[i].key == key
  {
    if es == [] || es[0].key == key then 0 else 1 + FirstIndex(key, es[1..])
  }

  /** `require(key, rule)` applied to a whole document: look the key up, then apply the rule. */
  function RequireOnDoc(field: (seq<byte>, Rule), es: seq<Element>): PState {
    var i := FirstIndex(field.0, es);
    if i == |es| || Apply(field.1, es[i]) == Reject then Error else Apply(field.1, es[i])
  }

  /** `all` of the required fields accepts a document. */
  ghost predicate AllAccept(fields: seq<(seq<byte>, Rule)>, es: seq<Element>) {
    forall p :: 0 <= p < |fields| ==> RequireOnDoc(fields[p], es) == Accept
  }

  /** The first decision of a field is made by an element with its key. */
  lemma {:induction false} FieldDecision(key: seq<byte>, rule: Rule, es: seq<Element>, n: nat) returns (i: nat)
    requires n <= |es|
    ensures i <= n && FirstDecision(Field(key, rule), es, i) == Reject
    ensures FirstDecision(Field(key, rule), es, n) == Reject ==> i == n
    ensures FirstDecision(Field(key, rule), es, n) != Reject ==>
      i < n && es[i].key == key && Apply(rule, es[i]) == FirstDecision(Field(key, rule), es, n)
  {
    if n == 0 {
      i := 0;
    } else if FirstDecision(Field(key, rule), es, n - 1) != Reject {
      i := FieldDecision(key, rule, es, n - 1);
    } else {
      i := if FirstDecision(Field(key, rule), es, n) == Reject then n else n - 1;
    }
  }

  lemma {:induction false} RejectedBefore(rule: Rule, es: seq<Element>, n: nat, i: nat)
    requires i < n <= |es| && FirstDecision(rule, es, n) == Reject
    ensures Apply(rule, es[i]) == Reject
  {
    if i < n - 1 {
      RejectedBefore(rule, es, n - 1, i);
    }
  }

  lemma {:induction false} FirstDecisionStays(rule: Rule, es: seq<Element>, n: nat, m: nat)
    requires n <= m <= |es| && FirstDecision(rule, es, n) != Reject
    ensures FirstDecision(rule, es, m) == FirstDecision(rule, es, n)
    decreases m
  {
    if n < m {
      FirstDecisionStays(rule, es, n, m - 1);
    }
  }

  lemma FirstMatchDecides(key: seq<byte>, rule: Rule, es: seq<Element>)
    ensures var i := FirstIndex(key, es);
      i < |es| && Apply(rule, es[i]) != Reject ==> FirstDecision(Field(key, rule), es, |es|) == Apply(rule, es[i])
  {
    var i := FirstIndex(key, es);
    if i < |es| && Apply(rule, es[i]) != Reject {
      NothingBefore(key, rule, es, i);
      FirstDecisionStays(Field(key, rule), es, i + 1, |es|);
    }
  }

  lemma {:induction false} NothingBefore(key: seq<byte>, rule: Rule, es: seq<Element>, n: nat)
    requires n <= |es| && forall j :: 0 <= j < n ==> es[j].key != key
    ensures FirstDecision(Field(key, rule), es, n) == Reject
  {
    if n > 0 {
      NothingBefore(key, rule, es, n - 1);
    }
  }

  lemma RequireVerdict(fields: seq<(seq<byte>, Rule)>, es: seq<Element>)
    requires DistinctKeys(fields)
    ensures ParseDoc(RequireParts(fields), es) == Accept <==>
      forall p :: 0 <= p < |fields| ==> FirstDecision(Field(fields[p].0, fields[p].1), es, |es|) == Accept
  {
    hide FirstDecision, ParseDoc, SeesSome;
    var specs := RequireParts(fields);
    FieldVerdict(specs, es);
    assert forall p :: 0 <= p < |fields| ==> specs[p] == Required(Field(fields[p].0, fields[p].1));
    if ParseDoc(specs, es) == Accept {
      forall p | 0 <= p < |fields|
        ensures FirstDecision(Field(fields[p].0, fields[p].1), es, |es|) == Accept
      {
        assert specs[p].Required?;
      }
    } else if p :| 0 <= p < |specs| && FirstDecision(specs[p].rule, es, |es|) != Accept {
      assert FirstDecision(Field(fields[p].0, fields[p].1), es, |es|) != Accept;
    }
  }

  /** Whatever `all` of the searching rules accepts, the one-pass parser accepts. */
  lemma AllImpliesDoc(fields: seq<(seq<byte>, Rule)>, es: seq<Element>)
    requires DistinctKeys(fields) && AllAccept(fields, es)
    ensures ParseDoc(RequireParts(fields), es) == Accept
  {
    forall p | 0 <= p < |fields|
      ensures FirstDecision(Field(fields[p].0, fields[p].1), es, |es|) == Accept
    {
      assert RequireOnDoc(fields[p], es) == Accept;
      FirstMatchDecides(fields[p].0, fields[p].1, es);
    }
    RequireVerdict(fields, es);
  }

  /** `fields` has exactly the given keys, in order. */
  ghost predicate FieldsOver(keys: seq<seq<byte>>, fields: seq<(seq<byte>, Rule)>) {
    |fields| == |keys| && forall p :: 0 <= p < |keys| ==> fields[p].0 == keys[p]
  }

  ghost predicate Distinct(keys: seq<seq<byte>>) {
    forall p, q :: 0 <= p < q < |keys| ==> keys[p] != keys[q]
  }

  ghost predicate SomeAbsent(keys: seq<seq<byte>>, es: seq<Element>) {
    exists p :: 0 <= p < |keys| && FirstIndex(keys[p], es) == |es|
  }

  /** Every element with one of the keys equals the first element with that key. */
  ghost predicate FirstsOnly(keys: seq<seq<byte>>, es: seq<Element>) {
    forall p, j :: 0 <= p < |keys| && 0 <= j < |es| && es[j].key == keys[p] ==> es[j] == es[FirstIndex(keys[p], es)]
  }

  /** Under the condition, the one-pass parser and `all` of the searching rules accept the same. */
  lemma Agree(keys: seq<seq<byte>>, fields: seq<(seq<byte>, Rule)>, es: seq<Element>)
    requires Distinct(keys) && FieldsOver(keys, fields)
    requires SomeAbsent(keys, es) || FirstsOnly(keys, es)
    ensures ParseDoc(RequireParts(fields), es) == Accept <==> AllAccept(fields, es)
  {
    hide ParseDoc, FirstDecision;
    RequireVerdict(fields, es);
    if SomeAbsent(keys, es) {
      var p :| 0 <= p < |keys| && FirstIndex(keys[p], es) == |es|;
      NothingBefore(fields[p].0, fields[p].1, es, |es|);
      assert RequireOnDoc(fields[p], es) == Error;
    } else if AllAccept(fields, es) {
      AllImpliesDoc(fields, es);
    } else if ParseDoc(RequireParts(fields), es) == Accept {
      forall p | 0 <= p < |fields|
        ensures RequireOnDoc(fields[p], es) == Accept
      {
        var (key, rule) := fields[p];
        var i := FieldDecision(key, rule, es, |es|);
        assert es[i].key == keys[p];
      }
    }
  }

  /** Without it there are rules for which they differ. */
  lemma Differ(keys: seq<seq<byte>>, es: seq<Element>) returns (fields: seq<(seq<byte>, Rule)>)
    requires Distinct(keys) && !SomeAbsent(keys, es) && !FirstsOnly(keys, es)
    ensures FieldsOver(keys, fields)
    ensures ParseDoc(RequireParts(fields), es) == Accept && !AllAccept(fields, es)
  {
    hide ParseDoc, FirstDecision;
    var p, j :| 0 <= p < |keys| && 0 <= j < |es| && es[j].key == keys[p] && es[j] != es[FirstIndex(keys[p], es)];
    var first := es[FirstIndex(keys[p], es)];
    var picky := Pure((e: Element) => if e == first then Reject else Accept);
    var easy := Pure((e: Element) => Accept);
    fields := seq(|keys|, q requires 0 <= q < |keys| => (keys[q], if q == p then picky else easy));
    RequireVerdict(fields, es);
    forall q | 0 <= q < |fields|
      ensures FirstDecision(Field(fields[q].0, fields[q].1), es, |es|) == Accept
    {
      var (key, rule) := fields[q];
      var hit := if q == p then j else FirstIndex(key, es);
      assert es[hit].key == key && Apply(rule, es[hit]) == Accept;
      if FirstDecision(Field(key, rule), es, |es|) == Reject {
        RejectedBefore(Field(key, rule), es, |es|, hit);
      }
      var i := FieldDecision(key, rule, es, |es|);
    }
    assert Apply(picky, first) == Reject;
    assert RequireOnDoc(fields[p], es) == Error;
  }

  /**
   For given distinct keys, the one-pass parser accepts what `all` of the searching
   rules accepts, whatever the rules, exactly when some key is absent or every element
   with one of the keys equals the first one with it.
   */
  lemma DocIsAllIff(keys: seq<seq<byte>>, es: seq<Element>)
    requires Distinct(keys)
    ensures (forall fields :: FieldsOver(keys, fields) ==>
               (ParseDoc(RequireParts(fields), es) == Accept <==> AllAccept(fields, es)))
       <==> SomeAbsent(keys, es) || FirstsOnly(keys, es)
  {
    hide ParseDoc, RequireParts, AllAccept, FirstsOnly, SomeAbsent;
    if SomeAbsent(keys, es) || FirstsOnly(keys, es) {
      forall fields | FieldsOver(keys, fields)
        ensures ParseDoc(RequireParts(fields), es) == Accept <==> AllAccept(fields, es)
      {
        Agree(keys, fields, es);
      }
    } else {
      var fields := Differ(keys, es);
    }
  }

  /** In particular they agree on documents without duplicate keys. */
  lemma DocIsAllWithoutDuplicates(fields: seq<(seq<byte>, Rule)>, es: seq<Element>)
    requires DistinctKeys(fields)
    requires forall i, j :: 0 <= i < j < |es| ==> es[i].key != es[j].key
    ensures ParseDoc(RequireParts(fields), es) == Accept <==> AllAccept(fields, es)
  {
    hide ParseDoc, RequireParts, AllAccept;
    var keys := seq(|fields|, p requires 0 <= p < |fields| => fields[p].0);
    Agree(keys, fields, es);
  }

  /** They differ on a document with two elements of one key, the second of which alone is accepted. */
  lemma DuplicateKeyDiffers() returns (fields: seq<(seq<byte>, Rule)>)
    ensures var es := [Element([97], Leaf(8, [0])), Element([97], Leaf(8, [1]))];
      && FieldsOver([[97]], fields)
      && ParseDoc(RequireParts(fields), es) == Accept && !AllAccept(fields, es)
  {
    var one, two := Element([97], Leaf(8, [0])), Element([97], Leaf(8, [1]));
    var keys: seq<seq<byte>>, es := [[97]], [one, two];
    assert FirstIndex(keys[0], es) == 0 && es[1].key == keys[0] && one != two;
    fields := Differ(keys, es);
  }

  // ----- each

  /** `each`: the first element whose outcome is not acceptance decides. */
  method Each(rule: Rule, es: seq<Element>) returns (state: PState, bad: nat)
    ensures bad <= |es| && forall i :: 0 <= i < bad ==> Apply(rule, es[i]) == Accept
    ensures bad == |es| ==> state == Accept
    ensures bad < |es| ==> state == Apply(rule, es[bad]) && state != Accept
  {
    bad := 0;
    while bad < |es|
      invariant bad <= |es| && forall i :: 0 <= i < bad ==> Apply(rule, es[i]) == Accept
    {
      state := Apply(rule, es[bad]);
      if state != Accept {
        return;
      }
      bad := bad + 1;
    }
    state := Accept;
  }
}

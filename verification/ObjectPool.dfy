/**
 The object pool (`src/amongoc/pool.hpp`). The pool keeps its objects in a list and
 counts them by hand; a ticket keeps the object it was given in a list of its own, of
 length one until it is moved from or discarded.
 */
module ObjectPool {
  import opened Collections

  /** A pooled object. Its identity is its address, which never changes. */
  class Item<T> {
    const value: T

    constructor (value: T)
      ensures this.value == value
    {
      this.value := value;
    }
  }

  datatype Place<T> = Pooled | In(ticket: Ticket<T>) | Destroyed

  lemma TailDistinct<X>(xs: seq<X>)
    requires NoDuplicates(xs) && xs != []
    ensures NoDuplicates(xs[1..]) && forall x :: x in xs <==> x == xs[0] || x in xs[1..]
    ensures xs[0] !in xs[1..]
  {
    assert xs == [xs[0]] + xs[1..];
  }

  /** The list holds exactly the pooled objects, once each; and each destroyed object was destroyed once. */
  ghost predicate ListsAre<T>(objects: seq<Item<T>>, destroyed: seq<Item<T>>, place: map<Item<T>, Place<T>>) {
    && NoDuplicates(objects) && NoDuplicates(destroyed)
    && (forall o :: o in objects ==> o in place)
    && (forall o :: o in destroyed ==> o in place)
    && (forall o :: o in place ==> (o in objects <==> place[o].Pooled?) && (o in destroyed <==> place[o].Destroyed?))
  }

  lemma FrontTaken<T>(objects: seq<Item<T>>, destroyed: seq<Item<T>>, place: map<Item<T>, Place<T>>)
    requires ListsAre(objects, destroyed, place) && objects != []
    ensures objects[0] in place && place[objects[0]].Pooled?
    ensures ListsAre(objects[1..], destroyed, place - {objects[0]})
  {
    TailDistinct(objects);
    hide NoDuplicates;
  }

  /** The objects in neither list, and how many they leave for the lists. */
  lemma PartsOf<T>(objects: seq<Item<T>>, destroyed: seq<Item<T>>, place: map<Item<T>, Place<T>>, held: set<Item<T>>)
    requires ListsAre(objects, destroyed, place)
    requires held == place.Keys - Elements(objects) - Elements(destroyed)
    ensures forall o :: o in held <==> o in place && place[o].In?
    ensures |place| == |objects| + |held| + |destroyed|
  {
    ElementsSize(objects);
    ElementsSize(destroyed);
    hide NoDuplicates;
    assert place.Keys == Elements(objects) + held + Elements(destroyed);
  }

  /** Every live ticket holds at most one object, and every other object is in the one ticket that holds it. */
  ghost predicate TicketsHold<T>(pool: Pool<T>, tickets: set<Ticket<T>>, place: map<Item<T>, Place<T>>)
    reads tickets
  {
    && (forall t :: t in tickets ==> t.parent == pool && |t.one| <= 1)
    && (forall t :: t in tickets && t.one != [] ==> t.one[0] in place && place[t.one[0]] == In(t))
    && (forall o :: o in place && place[o].In? ==> place[o].ticket in tickets && place[o].ticket.one == [o])
  }

  lemma TicketsHoldWithout<T>(pool: Pool<T>, tickets: set<Ticket<T>>, place: map<Item<T>, Place<T>>, item: Item<T>)
    requires TicketsHold(pool, tickets, place) && item in place && !place[item].In?
    ensures TicketsHold(pool, tickets, place - {item})
  {
  }

  class Pool<T> {
    var objects: seq<Item<T>>
    var count: nat
    const maxSize: nat
    /** The tickets not destroyed yet, and the objects destroyed so far, in order. */
    ghost var tickets: set<Ticket<T>>
    ghost var destroyed: seq<Item<T>>
    /** Where each object ever constructed is. */
    ghost var place: map<Item<T>, Place<T>>

    constructor (maxSize: nat)
      ensures Valid() && this.maxSize == maxSize
      ensures objects == [] && tickets == {} && place == map[] && destroyed == []
    {
      objects, count, this.maxSize := [], 0, maxSize;
      tickets, place, destroyed := {}, map[], [];
    }

    /** The hand-kept count is right, and the pool is not over its limit. */
    ghost predicate Counted()
      reads this
    {
      count == |objects| <= maxSize
    }

    ghost predicate Listed()
      reads this
    {
      ListsAre(objects, destroyed, place)
    }

    ghost predicate Ticketed()
      reads this, tickets
    {
      TicketsHold(this, tickets, place)
    }

    ghost predicate Valid()
      reads this, tickets
    {
      Counted() && Listed() && Ticketed()
    }

    method Checkout(factory: () -> T) returns (ticket: Ticket<T>)
      requires Valid()
      modifies this
      ensures Valid()
      ensures fresh(ticket) && tickets == old(tickets) + {ticket} && destroyed == old(destroyed)
      ensures |ticket.one| == 1
      ensures if old(objects) == []
        then fresh(ticket.one[0]) && ticket.one[0].value == factory() && objects == []
        else ticket.one == [old(objects)[0]] && objects == old(objects)[1..]
      ensures place == old(place)[ticket.one[0] := In(ticket)]
    {
      var item: Item<T>;
      if objects == [] {
        item := new Item(factory());
      } else {
        item := TakeFront();
      }
      ticket := Issue(item);
      assert place == old(place)[item := In(ticket)];
    }

    /** Splices the front object out of the pool. */
    method TakeFront() returns (item: Item<T>)
      requires Valid() && objects != []
      modifies this`objects, this`count, this`place
      ensures Valid()
      ensures item == old(objects)[0] && objects == old(objects)[1..]
      ensures item in old(place) && place == old(place) - {item}
    {
      FrontTaken(objects, destroyed, place);
      TicketsHoldWithout(this, tickets, place, objects[0]);
      hide ListsAre, TicketsHold;
      item := objects[0];
      objects := objects[1..];
      count := count - 1;
      place := place - {item};
    }

    /** Hands an object that is nowhere else to a new ticket. */
    method Issue(item: Item<T>) returns (ticket: Ticket<T>)
      requires Valid() && item !in place
      modifies this`tickets, this`place
      ensures Valid()
      ensures fresh(ticket) && ticket.one == [item]
      ensures tickets == old(tickets) + {ticket} && place == old(place)[item := In(ticket)]
    {
      hide NoDuplicates;
      ticket := new Ticket(this, [item]);
      tickets := tickets + {ticket};
      place := place[item := In(ticket)];
    }

    /** Splices a one-element list into the pool, unless that is full; returns what is left of the list. */
    method Return(one: seq<Item<T>>) returns (left: seq<Item<T>>)
      requires Counted() && |one| == 1
      modifies this`objects, this`count
      ensures Counted()
      ensures if old(count) < maxSize
        then objects == one + old(objects) && left == []
        else objects == old(objects) && left == one
    {
      left := one;
      if count < maxSize {
        objects := one + objects;
        count := count + 1;
        left := [];
      }
    }
  }

  class Ticket<T> {
    var parent: Pool<T>
    var one: seq<Item<T>>

    constructor (parent: Pool<T>, one: seq<Item<T>>)
      ensures this.parent == parent && this.one == one
    {
      this.parent, this.one := parent, one;
    }

    /** `~ticket`: a held object goes back to the pool, or is destroyed if that is full. */
    method Destroy()
      requires parent.Valid() && this in parent.tickets
      modifies parent
      ensures parent.Valid()
      ensures parent.tickets == old(parent.tickets) - {this} && parent.place.Keys == old(parent.place.Keys)
      ensures if one != [] && old(|parent.objects|) < parent.maxSize
        then parent.objects == one + old(parent.objects) && parent.destroyed == old(parent.destroyed)
        else parent.objects == old(parent.objects) && parent.destroyed == old(parent.destroyed) + one
    {
      if one != [] {
        var left := parent.Return(one);
        parent.destroyed := parent.destroyed + left;
        parent.place := parent.place[one[0] := if left == [] then Pooled else Destroyed];
      }
      parent.tickets := parent.tickets - {this};
    }

    /** `discard`: the held object is destroyed without going back; the ticket stays. */
    method Discard()
      requires parent.Valid() && this in parent.tickets
      modifies this`one, parent`destroyed, parent`place
      ensures parent.Valid()
      ensures one == [] && parent.destroyed == old(parent.destroyed) + old(one)
      ensures parent.place.Keys == old(parent.place.Keys)
    {
      if one != [] {
        parent.destroyed := parent.destroyed + one;
        parent.place := parent.place[one[0] := Destroyed];
      }
      one := [];
    }

    /** The defaulted move constructor; the source is left without an object. */
    constructor Move(source: Ticket<T>)
      requires source.parent.Valid() && source in source.parent.tickets
      modifies source`one, source.parent`tickets, source.parent`place
      ensures parent == source.parent && parent.Valid()
      ensures one == old(source.one) && source.one == []
      ensures parent.tickets == old(source.parent.tickets) + {this}
      ensures parent.place.Keys == old(source.parent.place.Keys)
    {
      parent, one := source.parent, source.one;
      new;
      source.one := [];
      parent.tickets := parent.tickets + {this};
      if one != [] {
        parent.place := parent.place[one[0] := In(this)];
      }
    }

    /**
     The defaulted move assignment, between tickets of the same or of different pools: an
     object the target held is destroyed, not returned, and the target becomes a ticket of
     the source's pool.
     */
    method Assign(source: Ticket<T>)
      requires source != this
      requires parent.Valid() && this in parent.tickets
      requires source.parent.Valid() && source in source.parent.tickets
      modifies this, source`one, parent, source.parent
      ensures old(parent).Valid() && parent.Valid() && parent == source.parent == old(source.parent)
      ensures this in parent.tickets && (old(parent) != parent ==> this !in old(parent).tickets)
      ensures one == old(source.one) && source.one == []
      ensures old(parent).destroyed == old(parent.destroyed + one)
      ensures old(parent) != parent ==> parent.destroyed == old(source.parent.destroyed)
      ensures old(parent).objects == old(parent.objects) && parent.objects == old(source.parent.objects)
      ensures old(parent).place.Keys == old(parent.place.Keys) && parent.place.Keys == old(source.parent.place.Keys)
    {
      Discard();
      Leave();
      Enter(source.parent);
      Take(source);
    }

    /** An empty ticket is no longer one of its pool. */
    method Leave()
      requires parent.Valid() && this in parent.tickets && one == []
      modifies parent`tickets
      ensures parent.Valid() && parent.tickets == old(parent.tickets) - {this}
    {
      hide NoDuplicates;
      parent.tickets := parent.tickets - {this};
    }

    /** An empty ticket becomes one of a pool. */
    method Enter(pool: Pool<T>)
      requires pool.Valid() && this !in pool.tickets && one == []
      modifies this`parent, pool`tickets
      ensures pool.Valid() && parent == pool && pool.tickets == old(pool.tickets) + {this}
    {
      hide NoDuplicates;
      parent := pool;
      pool.tickets := pool.tickets + {this};
    }

    /** Splices the source's list into this ticket's empty one. */
    method Take(source: Ticket<T>)
      requires parent.Valid() && this in parent.tickets && source in parent.tickets && source != this && one == []
      modifies this`one, source`one, parent`place
      ensures parent.Valid()
      ensures one == old(source.one) && source.one == []
      ensures parent.place.Keys == old(parent.place.Keys)
    {
      hide NoDuplicates;
      one := source.one;
      source.one := [];
      if one != [] {
        parent.place := parent.place[one[0] := In(this)];
      }
    }
  }

  /** What a set of tickets, each holding one object of its own, holds. */
  lemma {:induction false} HeldSize<T>(holding: set<Ticket<T>>, held: set<Item<T>>)
    requires forall t :: t in holding ==> |t.one| == 1 && t.one[0] in held
    requires forall t, u :: t in holding && u in holding && t != u ==> t.one[0] != u.one[0]
    requires forall o :: o in held ==> exists t :: t in holding && t.one == [o]
    ensures |holding| == |held|
    decreases holding
  {
    if t :| t in holding {
      forall o | o in held - {t.one[0]}
        ensures exists u :: u in holding - {t} && u.one == [o]
      {
        var u :| u in holding && u.one == [o];
        assert u in holding - {t};
      }
      HeldSize(holding - {t}, held - {t.one[0]});
    } else {
      assert held == {};
    }
  }

  /** At any time the objects ever constructed are those in the pool, those in tickets and those destroyed. */
  lemma Conservation<T>(pool: Pool<T>)
    requires pool.Valid()
    ensures |pool.place| == pool.count + |set t | t in pool.tickets && t.one != []| + |pool.destroyed|
  {
    var held := pool.place.Keys - Elements(pool.objects) - Elements(pool.destroyed);
    PartsOf(pool.objects, pool.destroyed, pool.place, held);
    hide ListsAre;
    HeldAreTicketed(pool, held);
    var holding := set t | t in pool.tickets && t.one != [];
    HeldSize(holding, held);
  }

  lemma HeldAreTicketed<T>(pool: Pool<T>, held: set<Item<T>>)
    requires pool.Valid() && forall o :: o in held <==> o in pool.place && pool.place[o].In?
    ensures var holding := set t | t in pool.tickets && t.one != [];
      && (forall t :: t in holding ==> |t.one| == 1 && t.one[0] in held)
      && (forall t, u :: t in holding && u in holding && t != u ==> t.one[0] != u.one[0])
      && (forall o :: o in held ==> exists t :: t in holding && t.one == [o])
  {
    hide ListsAre;
    forall o | o in held
      ensures pool.place[o].In? && pool.place[o].ticket in pool.tickets && pool.place[o].ticket.one == [o]
    {
    }
  }
}

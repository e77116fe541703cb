/**
 The future combinator of monolake-services/src/http/util.rs: a main future accompanied by a
 second one that is polled along with it and may be awaited on its own afterwards.
 */
module Accompanying {
  import opened Wrappers

  /**
   A future that becomes ready after some number of polls.  Its contract is the precondition of
   `Poll`: once it has completed it must not be polled again.
   */
  class Future<T> {
    const value: T
    var left: nat   // polls that will still answer Pending
    var done: bool

    constructor (value: T, left: nat)
      ensures this.value == value && this.left == left && !done
    {
      this.value, this.left, done := value, left, false;
    }

    method Poll() returns (r: Option<T>)
      requires !done
      modifies this
      ensures done <==> old(left) == 0
      ensures r == (if done then Some(value) else None)
      ensures left == if done then 0 else old(left) - 1
    {
      if left == 0 {
        done := true;
        r := Some(value);
      } else {
        left := left - 1;
        r := None;
      }
    }
  }

  class AccompanyPair<M, A> {
    const main: Future<M>
    const accompany: Future<A>
    var slot: Option<A>

    /** The slot holds the accompanying result exactly when that future has completed. */
    ghost predicate Valid()
      reads this, main, accompany
    {
      && main as object != accompany
      && slot == if accompany.done then Some(accompany.value) else None
    }

    constructor (main: Future<M>, accompany: Future<A>, slot: Option<A>)
      requires main as object != accompany
      requires slot == if accompany.done then Some(accompany.value) else None
      ensures this.main == main && this.accompany == accompany && Valid()
    {
      this.main, this.accompany, this.slot := main, accompany, slot;
    }

    /** Moves the accompanying future and its slot under another main future. */
    method Replace<N>(next: Future<N>) returns (pair: AccompanyPair<N, A>)
      requires Valid() && next as object != accompany
      ensures fresh(pair) && pair.Valid() && pair.main == next && pair.accompany == accompany
    {
      pair := new AccompanyPair<N, A>(next, accompany, slot);
    }

    method IntoAccompany() returns (rest: Accompany<A>)
      requires Valid()
      ensures fresh(rest) && rest.Valid() && !rest.delivered && rest.accompany == accompany
    {
      rest := new Accompany<A>(accompany, slot);
    }

    /**
     Polls both, the accompanying future only until it completes; the pair is ready exactly when
     its main future is, with the main result.
     */
    method Poll() returns (r: Option<M>)
      requires Valid() && !main.done
      modifies this, main, accompany
      ensures Valid()
      ensures r == (if main.done then Some(main.value) else None)
      ensures main.done <==> old(main.left) == 0
      ensures main.left == if main.done then 0 else old(main.left) - 1
      ensures accompany.done <==> old(accompany.done) || old(accompany.left) == 0
      ensures accompany.left == if accompany.done then old(accompany.left) else old(accompany.left) - 1
    {
      if slot.None? {
        var t := accompany.Poll();
        if t.Some? {
          slot := t;
        }
      }
      r := main.Poll();
    }

    /**
     Awaits the main future; a deadline fires after that many fruitless polls beyond the first.
     The accompanying future advances by as many polls, or completes.
     */
    method Await(deadline: Option<nat>) returns (r: Option<M>)
      requires Valid() && !main.done
      modifies this, main, accompany
      ensures Valid()
      ensures r == if deadline.Some? && deadline.value < old(main.left) then None else Some(main.value)
      ensures main.done == r.Some?
      ensures var polls := 1 + if r.Some? then old(main.left) else deadline.value;
              accompany.done <==> old(accompany.done) || old(accompany.left) < polls
    {
      ghost var start, other := main.left, accompany.left;
      var polls := 0;
      r := None;
      while r.None? && !(deadline.Some? && polls > deadline.value)
        invariant Valid()
        invariant r == if main.done then Some(main.value) else None
        invariant if main.done then polls == start + 1 else polls + main.left == start
        invariant deadline.Some? ==> polls <= deadline.value + 1
        invariant accompany.done <==> old(accompany.done) || other < polls
        invariant !accompany.done ==> accompany.left == other - polls
        decreases !main.done, main.left
      {
        r := Poll();
        polls := polls + 1;
      }
    }
  }

  /** What is left of a pair when its main future is no longer needed. */
  class Accompany<A> {
    const accompany: Future<A>
    var slot: Option<A>
    var delivered: bool

    ghost predicate Valid()
      reads this, accompany
    {
      if delivered then slot.None? && accompany.done
      else slot == if accompany.done then Some(accompany.value) else None
    }

    constructor (accompany: Future<A>, slot: Option<A>)
      requires slot == if accompany.done then Some(accompany.value) else None
      ensures this.accompany == accompany && Valid() && !delivered
    {
      this.accompany, this.slot, delivered := accompany, slot, false;
    }

    /** The result is handed out once: from the slot if it is there, else by the future itself. */
    method Poll() returns (r: Option<A>)
      requires Valid() && !delivered
      modifies this, accompany
      ensures Valid()
      ensures r == (if delivered then Some(accompany.value) else None)
      ensures delivered <==> old(accompany.done) || old(accompany.left) == 0
      ensures !delivered ==> accompany.left == old(accompany.left) - 1 && !accompany.done
    {
      if slot.Some? {
        r := slot;
        slot := None;
      } else {
        r := accompany.Poll();
      }
      delivered := r.Some?;
    }

    method Await() returns (t: A)
      requires Valid() && !delivered
      modifies this, accompany
      ensures Valid() && delivered && t == accompany.value
    {
      var r := Poll();
      while r.None?
        invariant Valid()
        invariant r == if delivered then Some(accompany.value) else None
        decreases !delivered, accompany.left
      {
        r := Poll();
      }
      t := r.value;
    }
  }
}

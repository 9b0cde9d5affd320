/** The scheduler's list of coroutines and the calls that work on it. */
module Libcoro {
  import S = CoroSpec

  class Coro {
    ghost const id: nat
    var ret: int
    var finished: bool
    var switches: nat
    var next: Coro?
    var prev: Coro?

    constructor (ghost id: nat)
      ensures this.id == id && !finished && next == null && prev == null && switches == 0
    {
      this.id := id;
      ret, finished, switches := 0, false, 0;
      next, prev := null, null;
    }
  }

  class Scheduler {
    const sched: Coro       // stands for the scheduler itself; it has no neighbours
    var head: Coro?         // coro_list
    var current: Coro       // coro_this_ptr
    var waiting: bool       // is_sched_waiting
    ghost var coros: seq<Coro>
    ghost var state: S.State

    ghost predicate Linked(cs: seq<Coro>)
      reads `head, cs`next, cs`prev
    {
      && head == (if cs == [] then null else cs[0])
      && (forall k {:trigger cs[k].next} :: 0 <= k < |cs| ==> cs[k].next == if k + 1 < |cs| then cs[k + 1] else null)
      && (forall k {:trigger cs[k].prev} :: 0 <= k < |cs| ==> cs[k].prev == if k > 0 then cs[k - 1] else null)
      && (forall i, j :: 0 <= i < j < |cs| ==> cs[i] != cs[j])
    }

    /** The coroutines in the list are those of `s`. */
    ghost predicate Lists(cs: seq<Coro>, s: S.State)
      reads cs`finished
    {
      && |cs| == |s.list|
      && (forall k :: 0 <= k < |cs| ==> cs[k].id == s.list[k] && (cs[k].finished <==> s.list[k] in s.finished))
    }

    ghost predicate Controls(cs: seq<Coro>, s: S.State)
      reads `current, `waiting, sched`next
    {
      && sched.next == null && sched !in cs && waiting == s.waiting
      && (if s.control.Running? then current in cs && current.id == s.control.id else current == sched)
    }

    ghost predicate Valid()
      reads this, sched`next, coros`next, coros`prev, coros`finished
    {
      Linked(coros) && Lists(coros, state) && Controls(coros, state) && S.Inv(state)
    }

    constructor ()
      ensures Valid() && state == S.INIT && coros == [] && fresh(sched)
    {
      sched := new Coro(0);
      head := null;
      current := sched;
      waiting := false;
      coros := [];
      state := S.INIT;
    }

    method ListAdd(c: Coro, ghost cs: seq<Coro>)
      requires Linked(cs) && c !in cs
      modifies `head, c`next, c`prev, cs`prev
      ensures Linked([c] + cs)
    {
      c.next := head;
      c.prev := null;
      if head != null {
        head.prev := c;
      }
      head := c;
    }

    method ListDelete(c: Coro, ghost cs: seq<Coro>, ghost k: nat)
      requires Linked(cs) && k < |cs| && cs[k] == c
      modifies `head, cs`next, cs`prev
      ensures Linked(cs[..k] + cs[k + 1..])
    {
      var prev, next := c.prev, c.next;
      assert prev == (if k > 0 then cs[k - 1] else null) && next == (if k + 1 < |cs| then cs[k + 1] else null);
      if prev != null {
        prev.next := next;
      }
      if next != null {
        next.prev := prev;
      }
      if prev == null {
        head := next;
      }
    }

    /** The search of coro_sched_wait: the first finished coroutine. */
    method FindFinished() returns (c: Coro?, ghost k: nat)
      requires Linked(coros) && Lists(coros, state)
      ensures k == S.FirstFinished(state.list, state.finished) <= |coros|
      ensures c == if S.FirstFinished(state.list, state.finished) < |coros|
                   then coros[S.FirstFinished(state.list, state.finished)] else null
    {
      c, k := head, 0;
      while c != null
        invariant k <= |coros| && c == if k < |coros| then coros[k] else null
        invariant forall j :: 0 <= j < k ==> state.list[j] !in state.finished
        decreases |coros| - k
      {
        if c.finished {
          break;
        }
        c, k := c.next, k + 1;
      }
    }

    lemma ListsWithout(cs: seq<Coro>, s: S.State, k: nat, s': S.State)
      requires Lists(cs, s) && k < |cs| && s'.list == S.Without(s.list, k) && s'.finished == s.finished
      ensures Lists(cs[..k] + cs[k + 1..], s')
    {
    }

    lemma ListsSame(cs: seq<Coro>, s: S.State, s': S.State)
      requires Lists(cs, s) && s'.list == s.list && s'.finished == s.finished
      ensures Lists(cs, s')
    {
    }

    lemma Lengths(cs: seq<Coro>, s: S.State)
      requires Linked(cs) && Lists(cs, s)
      ensures |cs| == |s.list| && (head == null <==> cs == []) && (cs != [] ==> head == cs[0] && cs[0].id == s.list[0])
      ensures forall k :: 0 <= k < |cs| ==> cs[k].id == s.list[k]
    {
    }

    lemma OutOfList(cs: seq<Coro>, k: nat)
      requires Linked(cs) && k < |cs|
      ensures cs[k] !in cs[..k] + cs[k + 1..]
    {
    }

    /** One turn of the loop in coro_sched_wait: a coroutine is returned, or NULL is, or the head gets control. */
    method Look() returns (c: Coro?)
      requires Valid() && state.control.Loop?
      modifies this, sched`switches, coros`next, coros`prev
      ensures Valid() && state == S.Next(old(state), S.Look)
      ensures c == null ==> state.returned == old(state).returned
      ensures c != null ==> c in old(coros) && c !in coros && state.returned == old(state).returned + [c.id]
    {
      hide S.Inv, S.LookStep, Linked, Lists, Controls;
      S.NextKeepsInv(state, S.Look);
      c := null;
      if head == null {
        NothingLeft(coros, state);
      } else {
        ghost var k;
        c, k := FindFinished();
        if c != null {
          OutOfList(coros, k);
          TakeOff(c, k);
          coros := coros[..k] + coros[k + 1..];
        } else {
          ResumeHead();
        }
      }
      state := S.LookStep(state);
    }

    lemma NothingLeft(cs: seq<Coro>, s: S.State)
      requires Linked(cs) && Lists(cs, s) && Controls(cs, s) && head == null && s.control.Loop?
      ensures Lists(cs, S.LookStep(s)) && Controls(cs, S.LookStep(s)) && S.LookStep(s).returned == s.returned
    {
    }

    method TakeOff(c: Coro, ghost k: nat)
      requires Linked(coros) && Lists(coros, state) && Controls(coros, state) && state.control.Loop?
      requires k == S.FirstFinished(state.list, state.finished) < |coros| && coros[k] == c
      modifies `head, coros`next, coros`prev
      ensures Linked(coros[..k] + coros[k + 1..])
      ensures Lists(coros[..k] + coros[k + 1..], S.LookStep(state))
      ensures Controls(coros[..k] + coros[k + 1..], S.LookStep(state))
      ensures S.LookStep(state).returned == state.returned + [c.id]
    {
      hide Linked, Lists;
      Lengths(coros, state);
      ListsWithout(coros, state, k, S.LookStep(state));
      ListDelete(c, coros, k);
    }

    method ResumeHead()
      requires Linked(coros) && Lists(coros, state) && Controls(coros, state) && state.control.Loop?
      requires head != null && S.FirstFinished(state.list, state.finished) == |coros|
      modifies `waiting, `current, sched`switches
      ensures Linked(coros) && Lists(coros, S.LookStep(state)) && Controls(coros, S.LookStep(state))
      ensures S.LookStep(state).returned == state.returned
    {
      hide Linked, Lists;
      Lengths(coros, state);
      ListsSame(coros, state, S.LookStep(state));
      waiting := true;
      YieldTo(head);
    }

    /** coro_yield_to: what the switch leaves behind, seen from the coroutine that gets control. */
    method YieldTo(to: Coro)
      modifies `current, current`switches
      ensures current == to && old(current).switches == old(current.switches) + 1
    {
      current.switches := current.switches + 1;
      current := to;
    }

    /** coro_yield: control goes to the next coroutine of the list, or back to the scheduler. */
    method Yield()
      requires Valid() && state.control.Running?
      modifies `current, `waiting, `state, current`switches
      ensures Valid() && state == S.Next(old(state), S.Yield)
      ensures coros == old(coros) && old(current).switches == old(current.switches) + 1
    {
      hide S.Inv, Linked, Lists;
      S.RunningIsListed(state);
      S.NextKeepsInv(state, S.Yield);
      S.YieldKeepsList(state);
      Lengths(coros, state);
      ghost var k := PlaceOf(current, coros, state);
      ListsSame(coros, state, S.YieldStep(state));
      var to := current.next;
      if to == null {
        YieldTo(sched);
        waiting := false;
      } else {
        YieldTo(to);
      }
      state := S.YieldStep(state);
    }

    /** The coroutine with the id of the model is the one in its place. */
    lemma PlaceOf(c: Coro, cs: seq<Coro>, s: S.State) returns (k: nat)
      requires Linked(cs) && Lists(cs, s) && c in cs && S.NoDuplicates(s.list)
      ensures c.id in s.list && k == S.IndexOf(s.list, c.id) < |cs| && cs[k] == c
      ensures c.next == if k + 1 < |cs| then cs[k + 1] else null
    {
      k :| 0 <= k < |cs| && cs[k] == c;
      S.IndexIs(s.list, k, c.id);
    }

    /** The function of the running coroutine has returned. */
    method Finish(ret: int)
      requires Valid() && state.control.Running?
      modifies `current, `waiting, `state, current`ret, current`finished
      ensures Valid() && state == S.Next(old(state), S.Finish)
      ensures coros == old(coros) && old(current).ret == ret
      ensures old(waiting)
    {
      hide S.Inv, Linked;
      S.RunningIsListed(state);
      S.NextKeepsInv(state, S.Finish);
      ghost var k := PlaceOf(current, coros, state);
      current.ret := ret;
      current.finished := true;
      current := sched;
      waiting := false;
      state := S.Next(state, S.Finish);
    }

    /** coro_new; the new coroutine is in front of the list and will run only when a later round gets to it. */
    method Create() returns (c: Coro)
      requires Valid() && !state.control.Loop?
      modifies `head, `coros, `state, coros`prev
      ensures Valid() && state == S.Next(old(state), S.Create)
      ensures fresh(c) && coros == [c] + old(coros) && c.id == old(state).nextId
    {
      hide S.Inv, Linked, Lists;
      S.NextKeepsInv(state, S.Create);
      c := new Coro(state.nextId);
      ListAdd(c, coros);
      ListsNew(coros, state, c);
      coros := [c] + coros;
      state := S.Next(state, S.Create);
    }

    lemma ListsNew(cs: seq<Coro>, s: S.State, c: Coro)
      requires Lists(cs, s) && S.Inv(s) && !s.control.Loop? && c.id == s.nextId && !c.finished
      ensures Lists([c] + cs, S.Next(s, S.Create))
    {
    }

    /** The program enters coro_sched_wait. */
    method Wait()
      requires Valid() && state.control.Program?
      modifies `state
      ensures Valid() && state == S.Next(old(state), S.Wait)
    {
      S.NextKeepsInv(state, S.Wait);
      state := S.Next(state, S.Wait);
    }
  }
}

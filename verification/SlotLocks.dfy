// Slot locking in internal/daemon/server.go: keyedMutex, its reference-counted
// mutexes, and the semaphore of acceptLoop, as interleaved steps of any number
// of goroutines. Each step is one access to shared state.

module SlotLocks {
  import opened Basics

  type Tid = nat
  type Obj = nat

  /** A refMutex: its count, and who has its mutex. */
  datatype RefMutex = RefMutex(refs: nat, holder: Option<Tid>)

  /** Where a request goroutine is. */
  datatype PC =
    | Start(key: string)                // accepted, before k.mu.Lock
    | Registering(key: string)          // has k.mu, before the lookup
    | Found(key: string, obj: Obj)      // has k.mu, before refs++
    | Registered(key: string, obj: Obj) // has k.mu, before k.mu.Unlock
    | Waiting(key: string, obj: Obj)    // before rm.mu.Lock
    | Holding(key: string, obj: Obj)    // inside the slot's critical section
    | Released(key: string, obj: Obj)   // after rm.mu.Unlock, before k.mu.Lock
    | Dropping(key: string, obj: Obj)   // has k.mu, before refs--
    | Dropped(key: string, obj: Obj)    // has k.mu, before the test of refs
    | Leaving(key: string)              // has k.mu, before k.mu.Unlock
    | Finished                          // before the semaphore is released
  {
    predicate HasTable()
    {
      Registering? || Found? || Registered? || Dropping? || Dropped? || Leaving?
    }

    /** Counted in refs. */
    predicate Counted()
    {
      Registered? || Waiting? || Holding? || Released? || Dropping?
    }

    predicate Points()
    {
      Counted() || Found? || Dropped?
    }
  }

  const MAX_REQUESTS: nat := 8

  /** objs keeps every mutex ever made; locks is the map the source keeps. */
  datatype State = State(
    locks: map<string, Obj>, objs: map<Obj, RefMutex>, mu: Option<Tid>, pcs: map<Tid, PC>, sem: nat)

  const INITIAL := State(map[], map[], None, map[], 0)

  // ------------------------------------------------------------------- steps

  function Goto(s: State, t: Tid, pc: PC): State
  {
    s.(pcs := s.pcs[t := pc])
  }

  /** acceptLoop takes a semaphore slot and starts the goroutine. */
  predicate Accept(s: State, s': State, t: Tid, key: string)
  {
    t !in s.pcs && s.sem < MAX_REQUESTS && s' == Goto(s, t, Start(key)).(sem := s.sem + 1)
  }

  /** One step of goroutine t. */
  ghost predicate Moves(s: State, s': State, t: Tid)
  {
    t in s.pcs &&
    match s.pcs[t]
    case Start(key) =>
      // A request refused before it reaches the slot never locks.
      || s' == Goto(s, t, Finished)
      || (s.mu == None && s' == Goto(s, t, Registering(key)).(mu := Some(t)))
    case Registering(key) =>
      if key in s.locks then s' == Goto(s, t, Found(key, s.locks[key]))
      else
        exists obj :: obj !in s.objs &&
          s' == Goto(s, t, Found(key, obj)).(locks := s.locks[key := obj], objs := s.objs[obj := RefMutex(0, None)])
    case Found(key, obj) =>
      obj in s.objs &&
      s' == Goto(s, t, Registered(key, obj)).(objs := s.objs[obj := s.objs[obj].(refs := s.objs[obj].refs + 1)])
    case Registered(key, obj) =>
      s' == Goto(s, t, Waiting(key, obj)).(mu := None)
    case Waiting(key, obj) =>
      obj in s.objs && s.objs[obj].holder == None &&
      s' == Goto(s, t, Holding(key, obj)).(objs := s.objs[obj := s.objs[obj].(holder := Some(t))])
    case Holding(key, obj) =>
      obj in s.objs &&
      s' == Goto(s, t, Released(key, obj)).(objs := s.objs[obj := s.objs[obj].(holder := None)])
    case Released(key, obj) =>
      s.mu == None && s' == Goto(s, t, Dropping(key, obj)).(mu := Some(t))
    case Dropping(key, obj) =>
      obj in s.objs && s.objs[obj].refs > 0 &&
      s' == Goto(s, t, Dropped(key, obj)).(objs := s.objs[obj := s.objs[obj].(refs := s.objs[obj].refs - 1)])
    case Dropped(key, obj) =>
      obj in s.objs &&
      s' == Goto(s, t, Leaving(key)).(locks := if s.objs[obj].refs == 0 then s.locks - {key} else s.locks)
    case Leaving(key) =>
      s' == Goto(s, t, Finished).(mu := None)
    case Finished =>
      s.sem > 0 && s' == s.(pcs := s.pcs - {t}, sem := s.sem - 1)
  }

  ghost predicate Next(s: State, s': State)
  {
    || (exists t, key :: Accept(s, s', t, key))
    || (exists t :: Moves(s, s', t))
  }

  // --------------------------------------------------------------- invariant

  function Users(pcs: map<Tid, PC>, obj: Obj): set<Tid>
  {
    set t | t in pcs && pcs[t].Counted() && pcs[t].obj == obj
  }

  /** The table mutex is held by whoever is in a table section. */
  ghost predicate TableHeld(s: State)
  {
    && (forall t :: t in s.pcs && s.pcs[t].HasTable() ==> s.mu == Some(t))
    && (s.mu.Some? ==> s.mu.value in s.pcs && s.pcs[s.mu.value].HasTable())
  }

  /** Every pointer a goroutine has is the object in the map. */
  ghost predicate Current(s: State)
  {
    && (forall t :: t in s.pcs && s.pcs[t].Points() ==>
          s.pcs[t].key in s.locks && s.locks[s.pcs[t].key] == s.pcs[t].obj)
    && (forall k :: k in s.locks ==> s.locks[k] in s.objs)
    && (forall k, l :: k in s.locks && l in s.locks && s.locks[k] == s.locks[l] ==> k == l)
  }

  /** A mutex is held by the goroutine that is inside, and only then. */
  ghost predicate Owned(s: State)
  {
    && (forall t :: t in s.pcs && s.pcs[t].Holding? && s.pcs[t].obj in s.objs ==>
          s.objs[s.pcs[t].obj].holder == Some(t))
    && (forall o :: o in s.objs && s.objs[o].holder.Some? ==>
          var t := s.objs[o].holder.value; t in s.pcs && s.pcs[t].Holding? && s.pcs[t].obj == o)
  }

  /** refs counts, and an uncounted object stays in the map only inside the
      table section that is about to count it or drop it. */
  ghost predicate CountedRight(s: State)
  {
    forall k :: k in s.locks && s.locks[k] in s.objs ==>
      && s.objs[s.locks[k]].refs == |Users(s.pcs, s.locks[k])|
      && (s.objs[s.locks[k]].refs == 0 ==>
            s.mu.Some? && s.mu.value in s.pcs &&
            var pc := s.pcs[s.mu.value]; (pc.Found? || pc.Dropped?) && pc.key == k)
  }

  ghost predicate Bounded(s: State)
  {
    s.sem == |s.pcs| <= MAX_REQUESTS
  }

  ghost predicate Inv(s: State)
  {
    TableHeld(s) && Current(s) && Owned(s) && CountedRight(s) && Bounded(s)
  }

  lemma UsersMove(pcs: map<Tid, PC>, t: Tid, pc: PC, obj: Obj)
    ensures Users(pcs[t := pc], obj) ==
            if pc.Counted() && pc.obj == obj then Users(pcs, obj) + {t} else Users(pcs, obj) - {t}
  {
  }

  lemma AcceptKeepsUsers(s: State, s': State, t: Tid, key: string, o: Obj)
    requires Accept(s, s', t, key)
    ensures Users(s'.pcs, o) == Users(s.pcs, o)
  {
    UsersMove(s.pcs, t, Start(key), o);
    assert t !in Users(s.pcs, o);
  }

  lemma AcceptKeepsCounts(s: State, s': State, t: Tid, key: string)
    requires TableHeld(s) && CountedRight(s) && Accept(s, s', t, key)
    ensures CountedRight(s')
  {
    forall k | k in s'.locks && s'.locks[k] in s'.objs
      ensures s'.objs[s'.locks[k]].refs == |Users(s'.pcs, s'.locks[k])|
    {
      AcceptKeepsUsers(s, s', t, key, s.locks[k]);
    }
    hide Users;
  }

  lemma OneMore(pcs: map<Tid, PC>, t: Tid, pc: PC)
    requires t !in pcs
    ensures |pcs[t := pc]| == |pcs| + 1
  {
    assert pcs[t := pc].Keys == pcs.Keys + {t};
    assert |pcs.Keys| == |pcs| && |pcs[t := pc].Keys| == |pcs[t := pc]|;
  }

  lemma AcceptKeepsCurrent(s: State, s': State, t: Tid, key: string)
    requires Current(s) && Accept(s, s', t, key)
    ensures Current(s')
  {
  }

  lemma AcceptKeepsOwned(s: State, s': State, t: Tid, key: string)
    requires Owned(s) && Accept(s, s', t, key)
    ensures Owned(s')
  {
  }

  lemma AcceptKeepsInv(s: State, s': State, t: Tid, key: string)
    requires Inv(s) && Accept(s, s', t, key)
    ensures Inv(s')
  {
    hide Current, Owned, CountedRight;
    AcceptKeepsCurrent(s, s', t, key);
    AcceptKeepsOwned(s, s', t, key);
    AcceptKeepsCounts(s, s', t, key);
    OneMore(s.pcs, t, Start(key));
  }

  lemma CountedAfter(s: State, s': State, t: Tid)
    requires Moves(s, s', t)
    ensures s'.pcs == if s.pcs[t].Finished? then s.pcs - {t} else s.pcs[t := s'.pcs[t]]
    ensures !s.pcs[t].Finished? ==>
              var pc, pc' := s.pcs[t], s'.pcs[t];
              && (pc'.Counted() <==> pc.Found? || (pc.Counted() && !pc.Dropping?))
              && (pc'.Counted() ==> pc'.obj == pc.obj)
              && (pc'.Holding? <==> pc.Waiting?)
  {
  }

  lemma PcsCount(s: State, s': State, t: Tid)
    requires t in s.pcs && Moves(s, s', t)
    ensures |s'.pcs| == if s.pcs[t].Finished? then |s.pcs| - 1 else |s.pcs|
  {
    CountedAfter(s, s', t);
    hide Moves;
    assert |s.pcs.Keys| == |s.pcs| && |s'.pcs.Keys| == |s'.pcs|;
    if s.pcs[t].Finished? {
      assert s'.pcs.Keys == s.pcs.Keys - {t};
    } else {
      assert s'.pcs.Keys == s.pcs.Keys;
    }
  }

  /** What one step does to the users of an object. */
  lemma UsersAfter(s: State, s': State, t: Tid, o: Obj)
    requires Moves(s, s', t)
    ensures var pc := s.pcs[t];
            Users(s'.pcs, o) ==
            if pc.Found? && pc.obj == o then Users(s.pcs, o) + {t}
            else if pc.Dropping? && pc.obj == o then Users(s.pcs, o) - {t}
            else Users(s.pcs, o)
    ensures t in Users(s.pcs, o) <==> s.pcs[t].Counted() && s.pcs[t].obj == o
  {
    CountedAfter(s, s', t);
    hide Moves;
    if s.pcs[t].Finished? {
      assert Users(s'.pcs, o) == Users(s.pcs, o);
    } else {
      UsersMove(s.pcs, t, s'.pcs[t], o);
      assert t !in Users(s.pcs, o) ==> Users(s.pcs, o) - {t} == Users(s.pcs, o);
      assert t in Users(s.pcs, o) ==> Users(s.pcs, o) + {t} == Users(s.pcs, o);
    }
  }

  /** What one step does to an object that stays in the map. */
  lemma ObjectAfter(s: State, s': State, t: Tid, k: string)
    requires Current(s) && Moves(s, s', t) && k in s'.locks
    ensures var pc, o := s.pcs[t], s'.locks[k];
            && o in s'.objs
            && (k in s.locks ==>
                  && s.locks[k] == o && o in s.objs
                  && s'.objs[o].refs == s.objs[o].refs +
                       (if pc.Found? && pc.obj == o then 1 else if pc.Dropping? && pc.obj == o then -1 else 0))
            && (k !in s.locks ==>
                  pc.Registering? && pc.key == k && o !in s.objs && s'.objs[o].refs == 0 && s'.pcs[t].Found?)
  {
  }

  lemma MovesKeepsCounts(s: State, s': State, t: Tid)
    requires Inv(s) && Moves(s, s', t)
    ensures forall k :: k in s'.locks && s'.locks[k] in s'.objs ==>
              s'.objs[s'.locks[k]].refs == |Users(s'.pcs, s'.locks[k])|
  {
    forall k | k in s'.locks && s'.locks[k] in s'.objs
      ensures s'.objs[s'.locks[k]].refs == |Users(s'.pcs, s'.locks[k])|
    {
      var o := s'.locks[k];
      ObjectAfter(s, s', t, k);
      UsersAfter(s, s', t, o);
      hide Moves, Users;
      if k !in s.locks {
        NoUsers(s, o);
      }
    }
  }

  lemma NoUsers(s: State, o: Obj)
    requires Inv(s) && o !in s.objs
    ensures Users(s.pcs, o) == {}
  {
  }

  /** Only inside a table section may an uncounted object be in the map. */
  lemma MovesKeepsZeros(s: State, s': State, t: Tid, k: string)
    requires Inv(s) && Moves(s, s', t) && k in s'.locks && s'.locks[k] in s'.objs
    requires s'.objs[s'.locks[k]].refs == 0
    ensures s'.mu.Some? && s'.mu.value in s'.pcs &&
            var pc := s'.pcs[s'.mu.value]; (pc.Found? || pc.Dropped?) && pc.key == k
  {
    ObjectAfter(s, s', t, k);
    var pc := s.pcs[t];
    if k in s.locks && pc.Points() && pc.key == k {
      assert s.locks[k] == pc.obj;
      assert pc.Counted() ==> t in Users(s.pcs, pc.obj);
    }
  }

  /** How the mover and the table mutex change. */
  lemma MoverAfter(s: State, s': State, t: Tid)
    requires Moves(s, s', t)
    ensures s.pcs[t].Finished? ==> s'.mu == s.mu
    ensures !s.pcs[t].Finished? ==>
              t in s'.pcs &&
              var pc, pc' := s.pcs[t], s'.pcs[t];
              if s.mu == None && s'.mu == Some(t) then !pc.HasTable() && pc'.HasTable()
              else if pc.Registered? || pc.Leaving? then s'.mu == None && !pc'.HasTable()
              else s'.mu == s.mu && (pc'.HasTable() <==> pc.HasTable())
  {
  }

  /** How the map changes. */
  lemma LocksAfter(s: State, s': State, t: Tid)
    requires Moves(s, s', t)
    ensures s.objs.Keys <= s'.objs.Keys
    ensures var pc := s.pcs[t];
            if pc.Registering? && pc.key !in s.locks then
              pc.key in s'.locks && s'.locks[pc.key] in s'.objs && s'.locks[pc.key] !in s.objs
              && s'.locks == s.locks[pc.key := s'.locks[pc.key]]
            else if pc.Dropped? && pc.obj in s.objs && s.objs[pc.obj].refs == 0 then s'.locks == s.locks - {pc.key}
            else s'.locks == s.locks
  {
  }

  /** How the mover's pointer changes. */
  lemma PointerAfter(s: State, s': State, t: Tid)
    requires Moves(s, s', t)
    ensures !s.pcs[t].Finished? && s'.pcs[t].Points() ==>
              var pc, pc' := s.pcs[t], s'.pcs[t];
              && (pc.Registering? || pc.Points()) && !pc.Dropped? && pc'.key == pc.key
              && (pc.Points() ==> pc'.obj == pc.obj)
              && (pc.Registering? ==> pc.key in s'.locks && pc'.obj == s'.locks[pc.key])
  {
  }

  lemma HolderAfter(s: State, s': State, t: Tid, o: Obj)
    requires Moves(s, s', t) && o in s'.objs
    ensures var pc := s.pcs[t];
            s'.objs[o].holder == if pc.Waiting? && pc.obj == o then Some(t)
                                 else if pc.Holding? && pc.obj == o then None
                                 else if o in s.objs then s.objs[o].holder
                                 else None
    ensures s.pcs[t].Waiting? && s.pcs[t].obj == o ==> o in s.objs && s.objs[o].holder == None
    ensures o in s.objs || s.pcs[t].Registering?
  {
  }

  lemma MovesKeepsTable(s: State, s': State, t: Tid)
    requires TableHeld(s) && Moves(s, s', t)
    ensures TableHeld(s')
  {
    CountedAfter(s, s', t);
    MoverAfter(s, s', t);
    hide Moves;
  }

  lemma MovesKeepsOwned(s: State, s': State, t: Tid)
    requires Current(s) && Owned(s) && Moves(s, s', t)
    ensures Owned(s')
  {
    CountedAfter(s, s', t);
    forall o | o in s'.objs
      ensures s'.objs[o].holder.Some? ==>
                var u := s'.objs[o].holder.value; u in s'.pcs && s'.pcs[u].Holding? && s'.pcs[u].obj == o
    {
      HolderAfter(s, s', t, o);
      hide Moves;
    }
    forall u | u in s'.pcs && s'.pcs[u].Holding? && s'.pcs[u].obj in s'.objs
      ensures s'.objs[s'.pcs[u].obj].holder == Some(u)
    {
      HolderAfter(s, s', t, s'.pcs[u].obj);
      hide Moves;
    }
  }

  lemma MovesKeepsCurrent(s: State, s': State, t: Tid)
    requires Inv(s) && Moves(s, s', t)
    ensures Current(s')
  {
    CountedAfter(s, s', t);
    LocksAfter(s, s', t);
    PointerAfter(s, s', t);
    if s.pcs[t].Dropped? && s.objs[s.pcs[t].obj].refs == 0 {
      DroppedIsLast(s, t);
    }
    hide Moves, Owned, Bounded, CountedRight, TableHeld;
    forall u | u in s'.pcs && s'.pcs[u].Points()
      ensures s'.pcs[u].key in s'.locks && s'.locks[s'.pcs[u].key] == s'.pcs[u].obj
    {
      assert u != t ==> s'.pcs[u] == s.pcs[u];
    }
  }

  lemma MovesKeepsRest(s: State, s': State, t: Tid)
    requires Inv(s) && Moves(s, s', t)
    ensures TableHeld(s') && Current(s') && Owned(s') && Bounded(s')
  {
    MovesKeepsTable(s, s', t);
    MovesKeepsCurrent(s, s', t);
    MovesKeepsOwned(s, s', t);
    hide TableHeld, Current, Owned, CountedRight;
    PcsCount(s, s', t);
  }

  /** When the count is zero nobody else points at the object. */
  lemma DroppedIsLast(s: State, t: Tid)
    requires Inv(s) && t in s.pcs && s.pcs[t].Dropped? && s.objs[s.pcs[t].obj].refs == 0
    ensures forall u :: u in s.pcs && u != t && s.pcs[u].Points() ==> s.pcs[u].key != s.pcs[t].key
  {
    var o := s.pcs[t].obj;
    assert Users(s.pcs, o) == {};
    forall u | u in s.pcs && u != t && s.pcs[u].Points() ensures s.pcs[u].key != s.pcs[t].key {
      assert s.pcs[u].Counted() ==> u in Users(s.pcs, s.pcs[u].obj);
    }
  }

  /** Every step of every goroutine keeps the invariant. */
  lemma NextKeepsInv(s: State, s': State)
    requires Inv(s) && Next(s, s')
    ensures Inv(s')
  {
    if t, key :| Accept(s, s', t, key) {
      AcceptKeepsInv(s, s', t, key);
    } else {
      var t :| Moves(s, s', t);
      MovesKeepsRest(s, s', t);
      MovesKeepsCounts(s, s', t);
      forall k | k in s'.locks && s'.locks[k] in s'.objs && s'.objs[s'.locks[k]].refs == 0
        ensures s'.mu.Some? && s'.mu.value in s'.pcs &&
                var pc := s'.pcs[s'.mu.value]; (pc.Found? || pc.Dropped?) && pc.key == k
      {
        MovesKeepsZeros(s, s', t, k);
      }
    }
  }

  ghost predicate Run(states: seq<State>)
  {
    && |states| > 0 && states[0] == INITIAL
    && forall i :: 0 <= i < |states| - 1 ==> Next(states[i], states[i + 1])
  }

  lemma {:induction false} ReachableInv(states: seq<State>, i: nat)
    requires Run(states) && i < |states|
    ensures Inv(states[i])
  {
    if i > 0 {
      ReachableInv(states, i - 1);
      NextKeepsInv(states[i - 1], states[i]);
    }
  }

  // ------------------------------------------------------------ main results

  predicate Inside(s: State, t: Tid)
  {
    t in s.pcs && s.pcs[t].Holding?
  }

  /** Over every interleaving: at most one goroutine is inside a slot; a
      goroutine that waits on or holds a mutex has the one now in the map;
      refs is exactly how many do. */
  lemma SlotsAreExclusive(states: seq<State>, i: nat)
    requires Run(states) && i < |states|
    ensures var s := states[i];
            && (forall t, u :: Inside(s, t) && Inside(s, u) && s.pcs[t].key == s.pcs[u].key ==> t == u)
            && (forall t :: t in s.pcs && s.pcs[t].Counted() ==>
                  s.pcs[t].key in s.locks && s.locks[s.pcs[t].key] == s.pcs[t].obj)
            && (forall k :: k in s.locks ==>
                  s.locks[k] in s.objs && s.objs[s.locks[k]].refs == |Users(s.pcs, s.locks[k])|)
  {
    ReachableInv(states, i);
  }

  lemma {:induction false} ImageIsNoBigger(pcs: map<Tid, PC>, keys: set<string>)
    requires forall k :: k in keys ==> exists t :: t in pcs && pcs[t].Points() && pcs[t].key == k
    ensures |keys| <= |pcs|
    decreases |keys|
  {
    if keys != {} {
      var k :| k in keys;
      var t :| t in pcs && pcs[t].Points() && pcs[t].key == k;
      var rest := pcs - {t};
      forall l | l in keys - {k} ensures exists u :: u in rest && rest[u].Points() && rest[u].key == l {
        var u :| u in pcs && pcs[u].Points() && pcs[u].key == l;
        assert u in rest;
      }
      ImageIsNoBigger(rest, keys - {k});
      assert rest.Keys == pcs.Keys - {t};
      assert |rest| == |rest.Keys| && |pcs| == |pcs.Keys|;
    }
  }

  lemma KeyHasUser(s: State, k: string) returns (t: Tid)
    requires Inv(s) && k in s.locks
    ensures t in s.pcs && s.pcs[t].Points() && s.pcs[t].key == k
  {
    var o := s.locks[k];
    if s.objs[o].refs == 0 {
      t := s.mu.value;
    } else {
      assert Users(s.pcs, o) != {};
      t :| t in Users(s.pcs, o);
    }
  }

  /** The table cannot grow: it never has more entries than there are requests
      in flight, at most MAX_REQUESTS, and it is empty when none is in a slot. */
  lemma TableIsBounded(states: seq<State>, i: nat)
    requires Run(states) && i < |states|
    ensures var s := states[i];
            && |s.locks| <= |s.pcs| <= 8
            && ((forall t :: t in s.pcs ==> !s.pcs[t].Points()) ==> s.locks == map[])
  {
    ReachableInv(states, i);
    var s := states[i];
    forall k | k in s.locks ensures exists t :: t in s.pcs && s.pcs[t].Points() && s.pcs[t].key == k {
      var t := KeyHasUser(s, k);
    }
    ImageIsNoBigger(s.pcs, s.locks.Keys);
    assert |s.locks| == |s.locks.Keys|;
  }

  /** No deadlock: while a request is in flight some goroutine can move. */
  lemma SomeoneCanMove(states: seq<State>, i: nat) returns (t: Tid, s': State)
    requires Run(states) && i < |states| && states[i].pcs != map[]
    ensures Moves(states[i], s', t)
  {
    ReachableInv(states, i);
    var s := states[i];
    if s.mu.Some? {
      t := s.mu.value;
      s' := TableStep(s, t);
    } else {
      t :| t in s.pcs;
      if s.pcs[t].Waiting? && s.objs[s.pcs[t].obj].holder.Some? {
        t := s.objs[s.pcs[t].obj].holder.value;
      }
      s' := FreeStep(s, t);
    }
  }

  lemma TableStep(s: State, t: Tid) returns (s': State)
    requires Inv(s) && t in s.pcs && s.pcs[t].HasTable()
    ensures Moves(s, s', t)
  {
    var pc := s.pcs[t];
    match pc
    case Registering(key) =>
      if key in s.locks {
        s' := Goto(s, t, Found(key, s.locks[key]));
      } else {
        var obj := FreshObj(s.objs.Keys, |s.objs|);
        s' := Goto(s, t, Found(key, obj)).(locks := s.locks[key := obj], objs := s.objs[obj := RefMutex(0, None)]);
      }
    case Found(key, obj) =>
      s' := Goto(s, t, Registered(key, obj)).(objs := s.objs[obj := s.objs[obj].(refs := s.objs[obj].refs + 1)]);
    case Registered(key, obj) =>
      s' := Goto(s, t, Waiting(key, obj)).(mu := None);
    case Dropping(key, obj) =>
      assert t in Users(s.pcs, obj);
      s' := Goto(s, t, Dropped(key, obj)).(objs := s.objs[obj := s.objs[obj].(refs := s.objs[obj].refs - 1)]);
    case Dropped(key, obj) =>
      s' := Goto(s, t, Leaving(key)).(locks := if s.objs[obj].refs == 0 then s.locks - {key} else s.locks);
    case Leaving(key) =>
      s' := Goto(s, t, Finished).(mu := None);
  }

  lemma FreeStep(s: State, t: Tid) returns (s': State)
    requires Inv(s) && s.mu == None && t in s.pcs
    requires s.pcs[t].Waiting? ==> s.objs[s.pcs[t].obj].holder == None
    ensures Moves(s, s', t)
  {
    match s.pcs[t]
    case Start(key) => s' := Goto(s, t, Finished);
    case Waiting(key, obj) =>
      s' := Goto(s, t, Holding(key, obj)).(objs := s.objs[obj := s.objs[obj].(holder := Some(t))]);
    case Holding(key, obj) =>
      s' := Goto(s, t, Released(key, obj)).(objs := s.objs[obj := s.objs[obj].(holder := None)]);
    case Released(key, obj) => s' := Goto(s, t, Dropping(key, obj)).(mu := Some(t));
    case Finished =>
      assert t in s.pcs.Keys && |s.pcs| == |s.pcs.Keys|;
      s' := s.(pcs := s.pcs - {t}, sem := s.sem - 1);
  }

  /** Among n + 1 numbers one is not in a set of n. */
  lemma {:induction false} FreshObj(used: set<Obj>, n: nat) returns (obj: Obj)
    requires |used| <= n
    ensures obj <= n && obj !in used
    decreases n
  {
    if n !in used {
      obj := n;
    } else {
      obj := FreshObj(used - {n}, n - 1);
    }
  }

  // ------------------------------------------------------- requests get in

  /** A request keeps its slot from start to finish, and moves alone. */
  lemma KeyStays(s: State, s': State, t: Tid, u: Tid)
    requires Moves(s, s', t) && u in s.pcs && !s.pcs[u].Finished?
    ensures u in s'.pcs && (u != t ==> s'.pcs[u] == s.pcs[u])
    ensures !s'.pcs[u].Finished? ==> s'.pcs[u].key == s.pcs[u].key
    ensures s'.pcs[u].Finished? && u == t ==> s.pcs[u].Start? || s.pcs[u].Leaving?
  {
  }

  /** A new request is accepted exactly while fewer than eight are in flight. */
  lemma AcceptedIff(states: seq<State>, i: nat, t: Tid, key: string)
    requires Run(states) && i < |states| && t !in states[i].pcs
    ensures (exists s' :: Accept(states[i], s', t, key)) <==> |states[i].pcs| < 8
  {
    ReachableInv(states, i);
    var s := states[i];
    if |s.pcs| < 8 {
      assert Accept(s, Goto(s, t, Start(key)).(sem := s.sem + 1), t, key);
    }
  }

  /** Requests for different slots do not wait for each other: what stops a
      request at its slot's mutex is another request inside the same slot. */
  lemma WaitsForSameSlotIff(states: seq<State>, i: nat, t: Tid)
    requires Run(states) && i < |states| && t in states[i].pcs && states[i].pcs[t].Waiting?
    ensures var s := states[i];
            (forall s' :: !Moves(s, s', t)) <==> exists u :: Inside(s, u) && s.pcs[u].key == s.pcs[t].key
  {
    ReachableInv(states, i);
    var s := states[i];
    var pc := s.pcs[t];
    hide TableHeld, CountedRight, Bounded;
    var rm := s.objs[pc.obj];
    if rm.holder.None? {
      assert Moves(s, Goto(s, t, Holding(pc.key, pc.obj)).(objs := s.objs[pc.obj := rm.(holder := Some(t))]), t);
      assert forall u :: Inside(s, u) ==> s.pcs[u].Points();
    } else {
      var u := rm.holder.value;
      assert s.pcs[u].Points() && Inside(s, u) && s.pcs[u].key == pc.key;
    }
  }

  /** How far a goroutine has to go. */
  function Rank(pc: PC): nat
  {
    match pc
    case Start(_) => 10
    case Registering(_) => 9
    case Found(_, _) => 8
    case Registered(_, _) => 7
    case Waiting(_, _) => 6
    case Holding(_, _) => 5
    case Released(_, _) => 4
    case Dropping(_, _) => 3
    case Dropped(_, _) => 2
    case Leaving(_) => 1
    case Finished => 0
  }

  lemma RankFalls(s: State, s': State, t: Tid)
    requires Moves(s, s', t) && !s.pcs[t].Finished?
    ensures t in s'.pcs && Rank(s'.pcs[t]) < Rank(s.pcs[t])
    ensures !s.pcs[t].Start? && Rank(s.pcs[t]) > 5 ==> Rank(s'.pcs[t]) >= 5
  {
  }

  function TableRank(s: State): nat
  {
    if s.mu.Some? && s.mu.value in s.pcs then Rank(s.pcs[s.mu.value]) else 0
  }

  /** Whether somebody is inside through the mutex t waits for. */
  function Busy(s: State, t: Tid): nat
  {
    if t in s.pcs && s.pcs[t].Waiting? && s.pcs[t].obj in s.objs && s.objs[s.pcs[t].obj].holder.Some? then 1 else 0
  }

  ghost predicate Continues(s: State, states: seq<State>)
  {
    && |states| > 0 && states[0] == s
    && forall i :: 0 <= i < |states| - 1 ==> Next(states[i], states[i + 1])
  }

  lemma Precede(s: State, next: State, states: seq<State>)
    requires Next(s, next) && Continues(next, states)
    ensures Continues(s, [s] + states)
  {
  }

  /** The next step on t's way into its slot: whoever has the table goes on; then
      whoever is inside leaves; then t. */
  lemma OneStepIn(s: State, t: Tid) returns (s': State)
    requires Inv(s) && t in s.pcs && Rank(s.pcs[t]) > 5
    ensures Next(s, s') && t in s'.pcs && (s'.pcs[t].Holding? || Rank(s'.pcs[t]) > 5)
    ensures s'.pcs[t].key == s.pcs[t].key
    ensures || Rank(s'.pcs[t]) < Rank(s.pcs[t])
            || (s'.pcs[t] == s.pcs[t] && TableRank(s') < TableRank(s))
            || (s'.pcs[t] == s.pcs[t] && TableRank(s') == TableRank(s) && Busy(s', t) < Busy(s, t))
  {
    var u: Tid;
    if s.mu.Some? {
      u := s.mu.value;
      s' := TableStep(s, u);
    } else if Busy(s, t) == 1 {
      u := s.objs[s.pcs[t].obj].holder.value;
      s' := FreeStep(s, u);
      HolderAfter(s, s', u, s.pcs[t].obj);
    } else {
      u := t;
      if s.pcs[t].Start? {
        s' := Goto(s, t, Registering(s.pcs[t].key)).(mu := Some(t));
        assert Moves(s, s', t);
      } else {
        s' := FreeStep(s, t);
      }
    }
    hide Current, Owned, CountedRight, Bounded;
    RankFalls(s, s', u);
    MoverAfter(s, s', u);
    KeyStays(s, s', u, t);
    hide Moves;
  }

  /** From every reachable state every request in flight that has not been
      refused can still get inside the slot it asked for. */
  lemma EveryRequestCanEnter(states: seq<State>, i: nat, t: Tid) returns (more: seq<State>)
    requires Run(states) && i < |states| && t in states[i].pcs && Rank(states[i].pcs[t]) > 5
    ensures Continues(states[i], more)
    ensures var end := more[|more| - 1]; Inside(end, t) && end.pcs[t].key == states[i].pcs[t].key
  {
    ReachableInv(states, i);
    more := WayIn(states[i], t);
  }

  lemma {:induction false} WayIn(s: State, t: Tid) returns (more: seq<State>)
    requires Inv(s) && t in s.pcs && Rank(s.pcs[t]) > 5
    ensures Continues(s, more)
    ensures var end := more[|more| - 1]; Inside(end, t) && end.pcs[t].key == s.pcs[t].key
    decreases Rank(s.pcs[t]), TableRank(s), Busy(s, t)
  {
    hide Inv, Next, Rank;
    var s' := OneStepIn(s, t);
    if s'.pcs[t].Holding? {
      more := [s, s'];
    } else {
      NextKeepsInv(s, s');
      more := WayIn(s', t);
      Precede(s, s', more);
      more := [s] + more;
    }
  }

  // --------------------------------------------------- the table sections

  class Counter {
    var refs: nat

    constructor ()
      ensures refs == 0
    {
      refs := 0;
    }
  }

  /** The two sections that run under k.mu, as code. Drop's precondition is what
      SlotsAreExclusive proves of every goroutine that reaches it. */
  class KeyedMutex {
    var locks: map<string, Counter>

    ghost predicate Valid()
      reads this, locks.Values
    {
      && (forall k :: k in locks ==> locks[k].refs > 0)
      && (forall k, l :: k in locks && l in locks && locks[k] == locks[l] ==> k == l)
    }

    constructor ()
      ensures Valid() && locks == map[]
    {
      locks := map[];
    }

    method Register(key: string) returns (rm: Counter)
      requires Valid()
      modifies this, if key in locks then {locks[key]} else {}
      ensures Valid()
      ensures key in locks && locks[key] == rm
      ensures if key in old(locks) then locks == old(locks) && rm.refs == old(locks[key].refs) + 1
              else fresh(rm) && locks == old(locks)[key := rm] && rm.refs == 1
    {
      if key in locks {
        rm := locks[key];
      } else {
        rm := new Counter();
        locks := locks[key := rm];
      }
      rm.refs := rm.refs + 1;
    }

    method Drop(key: string, rm: Counter)
      requires Valid() && key in locks && locks[key] == rm
      modifies this, rm
      ensures Valid()
      ensures rm.refs == old(rm.refs) - 1
      ensures locks == if rm.refs == 0 then old(locks) - {key} else old(locks)
    {
      rm.refs := rm.refs - 1;
      if rm.refs == 0 {
        locks := locks - {key};
      }
    }
  }
}

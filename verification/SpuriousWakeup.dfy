/** Runs of os_lesson/exp_2/queue.c in which a getter is woken and finds nothing: all items are pushed, one signal lets
    the gets return them all, and the signals of the other adders come too late. */
module SpuriousWakeup {
  import opened QueueCalls
  import opened QueueProtocol
  import opened Wrappers

  /** Some run leads to the state, and its calls of Add_Queue_Item were given `calls`. */
  ghost predicate Reached(st: State, calls: seq<Item>) {
    exists trace :: Exec(trace) == Some(st) && CallItems(trace) == calls
  }

  lemma Go(st: State, calls: seq<Item>, t: Tid, a: Action, st': State)
    requires Reached(st, calls) && Step(st, t, a) == Some(st')
    ensures Reached(st', calls + if a.CallAdd? then [a.item] else [])
    ensures !a.CallAdd? ==> Reached(st', calls)
  {
    var trace :| Exec(trace) == Some(st) && CallItems(trace) == calls;
    var longer := trace + [Event(t, a)];
    assert longer[..|longer| - 1] == trace;
    assert Exec(longer) == Some(st') && CallItems(longer) == calls + if a.CallAdd? then [a.item] else [];
    assert !a.CallAdd? ==> CallItems(longer) == calls;
  }

  lemma AtTwice(st: State, t: Tid, pc: Pc, pc': Pc)
    ensures At(At(st, t, pc), t, pc') == At(st, t, pc')
  {
    assert st.threads[t := pc][t := pc'] == st.threads[t := pc'];
  }

  /** An add alone, up to the lock. */
  lemma AddStarts(st: State, calls: seq<Item>, t: Tid, item: Item, p: Addr) returns (st': State)
    requires Reached(st, calls) && PcOf(st, t).Idle? && st.holder.None? && p !in st.cells
    ensures Reached(st', calls + [item])
    ensures st' == At(st, t, AddLink(p)).(cells := st.cells[p := Cell(item, None)], holder := Some(t))
  {
    var called := At(st, t, AddAlloc(item));
    var made := At(st, t, AddLock(p)).(cells := st.cells[p := Cell(item, None)]);
    st' := At(st, t, AddLink(p)).(cells := st.cells[p := Cell(item, None)], holder := Some(t));
    Go(st, calls, t, CallAdd(item), called);
    AtTwice(st, t, AddAlloc(item), AddLock(p));
    Go(called, calls + [item], t, CallocOk(p), made);
    AtTwice(st, t, AddLock(p), AddLink(p));
    Go(made, calls + [item], t, Run, st');
  }

  lemma AddLinks(st: State, calls: seq<Item>, t: Tid, p: Addr) returns (st': State)
    requires Reached(st, calls) && PcOf(st, t) == AddLink(p) && p in st.cells
    ensures Reached(st', calls)
    ensures st' == At(st, t, AddCount).(
                     cells := st.cells[p := st.cells[p].(next := st.items)], items := Some(p),
                     pushed := st.pushed + [st.cells[p].item])
  {
    var linked := At(st, t, AddHead(p)).(cells := st.cells[p := st.cells[p].(next := st.items)]);
    st' := linked.(threads := st.threads[t := AddCount], items := Some(p), pushed := st.pushed + [st.cells[p].item]);
    Go(st, calls, t, Run, linked);
    AtTwice(st, t, AddHead(p), AddCount);
    Go(linked, calls, t, Run, st');
  }

  lemma AddCounts(st: State, calls: seq<Item>, t: Tid) returns (st': State)
    requires Reached(st, calls) && PcOf(st, t).AddCount?
    ensures Reached(st', calls) && st' == At(st, t, AddUnlockRead).(numitems := st.numitems + 1, holder := None)
  {
    var counted := At(st, t, AddUnlockModify).(numitems := st.numitems + 1);
    st' := At(st, t, AddUnlockRead).(numitems := st.numitems + 1, holder := None);
    Go(st, calls, t, Run, counted);
    AtTwice(st, t, AddUnlockModify, AddUnlockRead);
    Go(counted, calls, t, Run, st');
  }

  lemma AddSignals(st: State, calls: seq<Item>, t: Tid) returns (st': State)
    requires Reached(st, calls) && PcOf(st, t).AddUnlockRead?
    ensures Reached(st', calls) && st' == At(st, t, Idle).(readFree := true)
  {
    st' := At(st, t, Idle).(readFree := true);
    Go(st, calls, t, Run, st');
  }

  /** A get alone, up to the test for an empty list. */
  lemma GetEnters(st: State, calls: seq<Item>, t: Tid) returns (st': State)
    requires Reached(st, calls) && PcOf(st, t).Idle? && st.readFree && st.holder.None?
    ensures Reached(st', calls) && st' == At(st, t, GetCheck).(readFree := false, holder := Some(t))
  {
    var called := At(st, t, GetLockRead);
    var woken := At(st, t, GetLockModify).(readFree := false);
    st' := At(st, t, GetCheck).(readFree := false, holder := Some(t));
    Go(st, calls, t, CallGet, called);
    AtTwice(st, t, GetLockRead, GetLockModify);
    Go(called, calls, t, Run, woken);
    AtTwice(st, t, GetLockModify, GetCheck);
    Go(woken, calls, t, Run, st');
  }

  lemma GetFindsNothing(st: State, calls: seq<Item>, t: Tid) returns (st': State)
    requires Reached(st, calls) && PcOf(st, t).GetCheck? && st.items.None?
    ensures Reached(st', calls) && st' == At(st, t, Idle).(holder := None, nulls := st.nulls + 1)
  {
    st' := At(st, t, Idle).(holder := None, nulls := st.nulls + 1);
    Go(st, calls, t, Run, At(st, t, GetUnlockEmpty));
    AtTwice(st, t, GetUnlockEmpty, Idle);
    Go(At(st, t, GetUnlockEmpty), calls, t, Run, st');
  }

  lemma WalkEnds(st: State, calls: seq<Item>, t: Tid, pqi: Addr, qi: Addr)
    requires Reached(At(st, t, GetWalk(pqi, qi)), calls) && qi in st.cells && st.cells[qi].next.None?
    ensures Reached(At(st, t, GetCut(pqi, qi)), calls)
  {
    AtTwice(st, t, GetWalk(pqi, qi), GetCut(pqi, qi));
    Go(At(st, t, GetWalk(pqi, qi)), calls, t, Run, At(st, t, GetCut(pqi, qi)));
  }

  lemma WalkMoves(st: State, calls: seq<Item>, t: Tid, pqi: Addr, qi: Addr, next: Addr)
    requires Reached(At(st, t, GetWalk(pqi, qi)), calls) && qi in st.cells && st.cells[qi].next == Some(next)
    ensures Reached(At(st, t, GetWalk(qi, next)), calls)
  {
    AtTwice(st, t, GetWalk(pqi, qi), GetWalk(qi, next));
    Go(At(st, t, GetWalk(pqi, qi)), calls, t, Run, At(st, t, GetWalk(qi, next)));
  }

  /** The walk along the list `s`, from its cell number `k` to the last one. */
  lemma {:induction false} Walks(st: State, calls: seq<Item>, t: Tid, s: seq<Addr>, k: nat) returns (st': State)
    requires k < |s| && Linked(st.cells, st.items, s) && Reached(At(st, t, GetWalk(Before(s, k), s[k])), calls)
    ensures Reached(st', calls) && st' == At(st, t, GetCut(Before(s, |s| - 1), s[|s| - 1]))
    decreases |s| - k
  {
    assert s[k] in st.cells && st.cells[s[k]].next == After(s, k);
    if k == |s| - 1 {
      WalkEnds(st, calls, t, Before(s, k), s[k]);
      st' := At(st, t, GetCut(Before(s, k), s[k]));
    } else {
      WalkMoves(st, calls, t, Before(s, k), s[k], s[k + 1]);
      st' := Walks(st, calls, t, s, k + 1);
    }
  }

  lemma GetCuts(st: State, calls: seq<Item>, t: Tid, pqi: Addr, qi: Addr) returns (st': State)
    requires Reached(st, calls) && PcOf(st, t) == GetCut(pqi, qi) && pqi in st.cells
    ensures Reached(st', calls)
    ensures st' == At(st, t, GetHead(qi)).(cells := st.cells[pqi := st.cells[pqi].(next := None)])
  {
    st' := At(st, t, GetHead(qi)).(cells := st.cells[pqi := st.cells[pqi].(next := None)]);
    Go(st, calls, t, Run, st');
  }

  lemma GetCounts(st: State, calls: seq<Item>, t: Tid, qi: Addr) returns (st': State)
    requires Reached(st, calls) && PcOf(st, t) == GetHead(qi)
    ensures Reached(st', calls)
    ensures st' == At(st, t, GetSignal(qi)).(
                     items := if st.numitems == 1 then None else st.items, numitems := st.numitems - 1)
  {
    var headed := At(st, t, GetCount(qi)).(items := if st.numitems == 1 then None else st.items);
    st' := headed.(threads := st.threads[t := GetSignal(qi)], numitems := st.numitems - 1);
    Go(st, calls, t, Run, headed);
    AtTwice(st, t, GetCount(qi), GetSignal(qi));
    Go(headed, calls, t, Run, st');
  }

  /** Signal or drain, unlock and return. */
  lemma GetLeaves(st: State, calls: seq<Item>, t: Tid, qi: Addr) returns (st': State)
    requires Reached(st, calls) && PcOf(st, t) == GetSignal(qi) && qi in st.cells
    ensures Reached(st', calls)
    ensures st' == At(st, t, Idle).(
                     readFree := st.readFree || st.numitems > 0,
                     drains := if st.numitems > 0 then st.drains else st.drains + 1,
                     holder := None, returned := st.returned + [st.cells[qi].item])
  {
    var signalled := At(st, t, GetUnlockModify(qi)).(
                       readFree := st.readFree || st.numitems > 0,
                       drains := if st.numitems > 0 then st.drains else st.drains + 1);
    st' := signalled.(threads := st.threads[t := Idle], holder := None,
                      returned := st.returned + [st.cells[qi].item]);
    Go(st, calls, t, Run, signalled);
    AtTwice(st, t, GetUnlockModify(qi), Idle);
    Go(signalled, calls, t, Run, st');
  }

  /** From the cut to the end. */
  lemma GetReturns(st: State, calls: seq<Item>, t: Tid, pqi: Addr, qi: Addr) returns (st': State)
    requires Reached(st, calls) && PcOf(st, t) == GetCut(pqi, qi) && pqi in st.cells && qi in st.cells && !st.readFree
    ensures Reached(st', calls)
    ensures st' == At(st, t, Idle).(
                     cells := st.cells[pqi := st.cells[pqi].(next := None)],
                     items := if st.numitems == 1 then None else st.items, numitems := st.numitems - 1,
                     readFree := st.numitems > 1, drains := if st.numitems > 1 then st.drains else st.drains + 1,
                     holder := None, returned := st.returned + [st.cells[qi].item])
  {
    var cut := GetCuts(st, calls, t, pqi, qi);
    AtTwice(st, t, GetHead(qi), GetSignal(qi));
    var counted := GetCounts(cut, calls, t, qi);
    AtTwice(st, t, GetSignal(qi), Idle);
    st' := GetLeaves(counted, calls, t, qi);
  }

  // ---------------------------------------------------------------- whole calls

  /** The list of a reached state in which nobody holds modify_mutex. */
  lemma QuietList(st: State, calls: seq<Item>) returns (s: seq<Addr>)
    requires Reached(st, calls) && st.holder.None?
    ensures Inv(st, s) && Linked(st.cells, st.items, s) && st.numitems == |s|
  {
    var trace :| Exec(trace) == Some(st);
    s := ReachableInv(trace);
  }

  /** A call of Add_Queue_Item up to its last statement. */
  lemma AddAll(st: State, calls: seq<Item>, t: Tid, item: Item, p: Addr) returns (st': State)
    requires Reached(st, calls) && PcOf(st, t).Idle? && st.holder.None? && p !in st.cells
    ensures Reached(st', calls + [item]) && st'.holder.None? && st'.threads == st.threads[t := AddUnlockRead]
    ensures st'.cells.Keys == st.cells.Keys + {p} && st'.numitems == st.numitems + 1
    ensures st'.pushed == st.pushed + [item] && Unspent(st, st') && st'.returned == st.returned
  {
    var started := AddStarts(st, calls, t, item, p);
    AtTwice(st, t, AddLink(p), AddCount);
    var linked := AddLinks(started, calls + [item], t, p);
    AtTwice(st, t, AddCount, AddUnlockRead);
    st' := AddCounts(linked, calls + [item], t);
  }

  ghost predicate Unspent(st: State, st': State) {
    st'.readFree == st.readFree && st'.nulls == st.nulls && st'.drains == st.drains
  }

  /** A call of Get_Queue_Item that returns an item. */
  lemma GetItem(st: State, calls: seq<Item>, t: Tid) returns (st': State)
    requires Reached(st, calls) && PcOf(st, t).Idle? && st.holder.None? && st.readFree && st.numitems > 0
    ensures Reached(st', calls) && st'.holder.None? && st'.threads == st.threads[t := Idle]
    ensures st'.numitems == st.numitems - 1 && st'.pushed == st.pushed && st'.nulls == st.nulls
    ensures st'.readFree == (st.numitems > 1) && st'.drains == st.drains + (if st.numitems > 1 then 0 else 1)
  {
    var s := QuietList(st, calls);
    var entered := GetEnters(st, calls, t);
    AtTwice(st, t, GetCheck, GetWalk(s[0], s[0]));
    var looking := At(st, t, GetWalk(s[0], s[0])).(readFree := false, holder := Some(t));
    Go(entered, calls, t, Run, looking);
    AtTwice(entered, t, GetCheck, GetWalk(s[0], s[0]));
    assert looking == At(entered, t, GetWalk(Before(s, 0), s[0]));
    var found := Walks(entered, calls, t, s, 0);
    LastTwo(st, s);
    st' := GetReturns(found, calls, t, Before(s, |s| - 1), s[|s| - 1]);
    AtTwice(st, t, GetCheck, GetCut(Before(s, |s| - 1), s[|s| - 1]));
    AtTwice(st, t, GetCut(Before(s, |s| - 1), s[|s| - 1]), Idle);
  }

  lemma LastTwo(st: State, s: seq<Addr>)
    requires Linked(st.cells, st.items, s) && s != []
    ensures Before(s, |s| - 1) in st.cells && s[|s| - 1] in st.cells
  {
    assert |s| > 1 ==> s[|s| - 2] in st.cells;
  }

  /** A call of Get_Queue_Item that returns NULL. */
  lemma GetNull(st: State, calls: seq<Item>, t: Tid) returns (st': State)
    requires Reached(st, calls) && PcOf(st, t).Idle? && st.holder.None? && st.readFree && st.numitems == 0
    ensures Reached(st', calls) && st'.holder.None? && st'.threads == st.threads[t := Idle] && st'.numitems == 0
    ensures st'.pushed == st.pushed && st'.nulls == st.nulls + 1 && st'.drains == st.drains && !st'.readFree
  {
    var s := QuietList(st, calls);
    var entered := GetEnters(st, calls, t);
    st' := GetFindsNothing(entered, calls, t);
    AtTwice(st, t, GetCheck, Idle);
  }

  // ---------------------------------------------------------------- the run

  /** Thread 0 is outside, threads 1 to `k` have pushed, and those after `j` have yet to signal. */
  ghost predicate Waiting(st: State, calls: seq<Item>, j: nat, k: nat) {
    && Reached(st, calls) && st.holder.None? && PcOf(st, 0).Idle?
    && (forall t :: j < t <= k ==> PcOf(st, t).AddUnlockRead?)
    && (forall t :: t > k ==> PcOf(st, t).Idle?)
  }

  /** One thread for every item, and nobody has signalled. */
  lemma {:induction false} PushAll(xs: seq<Item>) returns (st: State)
    ensures Waiting(st, xs, 0, |xs|) && st.pushed == xs && st.numitems == |xs|
    ensures !st.readFree && st.nulls == 0 && st.drains == 0
    ensures forall a :: a in st.cells ==> a < |xs|
    decreases |xs|
  {
    if xs == [] {
      st := Initial();
      assert Exec([]) == Some(st) && CallItems([]) == [];
    } else {
      var n := |xs| - 1;
      var before := PushAll(xs[..n]);
      st := AddAll(before, xs[..n], n + 1, xs[n], n);
      assert xs == xs[..n] + [xs[n]];
      assert forall a :: a in st.cells ==> a in before.cells.Keys || a == n;
      assert forall t :: t != n + 1 ==> PcOf(st, t) == PcOf(before, t);
    }
  }

  /** Thread 0 takes all items; only the last get keeps read_mutex locked. */
  lemma {:induction false} TakeAll(st: State, calls: seq<Item>, j: nat, k: nat) returns (st': State)
    requires Waiting(st, calls, j, k) && st.readFree && st.numitems > 0
    ensures Waiting(st', calls, j, k) && !st'.readFree && st'.numitems == 0
    ensures st'.pushed == st.pushed && st'.nulls == st.nulls && st'.drains == st.drains + 1
    decreases st.numitems
  {
    st' := GetItem(st, calls, 0);
    assert forall t :: PcOf(st', t) == PcOf(st, t);
    if st.numitems > 1 {
      st' := TakeAll(st', calls, j, k);
    }
  }

  /** Each late signal wakes thread 0, which finds nothing. */
  lemma {:induction false} LateSignals(st: State, calls: seq<Item>, j: nat, k: nat) returns (st': State)
    requires Waiting(st, calls, j, k) && !st.readFree && st.numitems == 0 && j <= k
    ensures Waiting(st', calls, k, k) && !st'.readFree && st'.numitems == 0
    ensures st'.pushed == st.pushed && st'.nulls == st.nulls + (k - j) && st'.drains == st.drains
    decreases k - j
  {
    if j == k {
      st' := st;
    } else {
      var woken := AddSignals(st, calls, j + 1);
      st' := GetNull(woken, calls, 0);
      assert forall t :: t != j + 1 ==> PcOf(st', t) == PcOf(st, t);
      st' := LateSignals(st', calls, j + 1, k);
    }
  }

  /** For any items there is a run that pushes and returns them all and returns NULL once less than there are items,
      which is as often as can be. */
  lemma NullsHappen(xs: seq<Item>) returns (trace: seq<Event>)
    requires xs != []
    ensures Exec(trace).Some? && CallItems(trace) == xs
    ensures var st := Exec(trace).value;
      st.pushed == xs && st.returned == xs && st.nulls == |xs| - 1 && st.drains == 1
  {
    var pushed := PushAll(xs);
    var st := AddSignals(pushed, xs, 1);
    assert forall t :: t != 1 ==> PcOf(st, t) == PcOf(pushed, t);
    st := TakeAll(st, xs, 1, |xs|);
    st := LateSignals(st, xs, 1, |xs|);
    trace :| Exec(trace) == Some(st) && CallItems(trace) == xs;
    var s := QuietList(st, xs);
  }
}

/** What the queue of os_lesson/exp_2/queue.c carries: the items pushed and returned are the arguments of the calls of
    Add_Queue_Item, each at most once. */
module QueueCalls {
  import opened QueueProtocol
  import opened Wrappers

  /** The arguments of the calls of Add_Queue_Item, in the order of the calls. */
  ghost function CallItems(trace: seq<Event>): seq<Item> {
    if trace == [] then []
    else
      var a := trace[|trace| - 1].action;
      CallItems(trace[..|trace| - 1]) + if a.CallAdd? then [a.item] else []
  }

  /** The argument of the latest call of Add_Queue_Item by thread `t`. */
  ghost function LatestCall(trace: seq<Event>, t: Tid): Option<Item> {
    if trace == [] then None
    else
      var e := trace[|trace| - 1];
      if e.tid == t && e.action.CallAdd? then Some(e.action.item) else LatestCall(trace[..|trace| - 1], t)
  }

  /** The arguments that were given up because calloc failed. */
  ghost function Dropped(trace: seq<Event>): seq<Item> {
    if trace == [] then []
    else
      var before, e := trace[..|trace| - 1], trace[|trace| - 1];
      Dropped(before) +
      if e.action.CallocFails? && Exec(before).Some? && Carried(Exec(before).value, e.tid).Some?
      then [Carried(Exec(before).value, e.tid).value] else []
  }

  /** The item a thread has been given and not yet put on the list. */
  ghost function Carried(st: State, t: Tid): Option<Item> {
    var pc := PcOf(st, t);
    if pc.AddAlloc? then Some(pc.item)
    else if Unlinked(pc) && pc.qi in st.cells then Some(st.cells[pc.qi].item)
    else None
  }

  // ---------------------------------------------------------------- one step

  /** What a step does to the item of its own thread. */
  ghost predicate Moves(st: State, st': State, t: Tid, a: Action) {
    var was, now := Carried(st, t), Carried(st', t);
    if a.CallAdd? then was.None? && now == Some(a.item) && st'.pushed == st.pushed
    else if a.CallocFails? then was.Some? && now.None? && st'.pushed == st.pushed
    else || (now == was && st'.pushed == st.pushed)
         || (was.Some? && now.None? && st'.pushed == st.pushed + [was.value])
  }

  lemma CallMoves(st: State, t: Tid, a: Action)
    requires Step(st, t, a).Some? && !a.Run?
    ensures Moves(st, Step(st, t, a).value, t, a)
  {
  }

  lemma AddMoves(st: State, t: Tid)
    requires RunStep(st, t).Some? && (Unlinked(PcOf(st, t)) || WillSignal(PcOf(st, t)))
    requires Unlinked(PcOf(st, t)) ==> PcOf(st, t).qi in st.cells
    ensures Moves(st, RunStep(st, t).value, t, Run)
  {
  }

  lemma GetMoves(st: State, t: Tid)
    requires RunStep(st, t).Some? && !Unlinked(PcOf(st, t)) && !WillSignal(PcOf(st, t))
    ensures Moves(st, RunStep(st, t).value, t, Run)
  {
  }

  /** The items of the others stay. */
  lemma OthersKeep(st: State, t: Tid, a: Action, u: Tid)
    requires Step(st, t, a).Some? && u != t && (Unlinked(PcOf(st, u)) ==> PcOf(st, u).qi in st.cells)
    ensures Carried(Step(st, t, a).value, u) == Carried(st, u)
  {
    StepKeepsItems(st, t, a);
  }

  /** A step changes its own thread only, and no item of a cell. */
  ghost predicate KeepsItems(st: State, st': State, t: Tid) {
    && t in st'.threads && st'.threads == st.threads[t := st'.threads[t]]
    && forall c :: c in st.cells ==> c in st'.cells && st'.cells[c].item == st.cells[c].item
  }

  lemma CallKeepsItems(st: State, t: Tid, a: Action)
    requires Step(st, t, a).Some? && !a.Run?
    ensures KeepsItems(st, Step(st, t, a).value, t)
  {
  }

  lemma AddKeepsItems(st: State, t: Tid)
    requires RunStep(st, t).Some? && (Unlinked(PcOf(st, t)) || WillSignal(PcOf(st, t)))
    ensures KeepsItems(st, RunStep(st, t).value, t)
  {
  }

  lemma EnterKeepsItems(st: State, t: Tid)
    requires RunStep(st, t).Some? && (Entering(PcOf(st, t)) || Looking(PcOf(st, t)))
    ensures KeepsItems(st, RunStep(st, t).value, t)
  {
  }

  lemma TakeKeepsItems(st: State, t: Tid)
    requires RunStep(st, t).Some? && (Taking(PcOf(st, t)) || Leaving(PcOf(st, t)))
    ensures KeepsItems(st, RunStep(st, t).value, t)
  {
  }

  lemma StepKeepsItems(st: State, t: Tid, a: Action)
    requires Step(st, t, a).Some?
    ensures KeepsItems(st, Step(st, t, a).value, t)
  {
    var pc := PcOf(st, t);
    if !a.Run? {
      CallKeepsItems(st, t, a);
    } else if Unlinked(pc) || WillSignal(pc) {
      AddKeepsItems(st, t);
    } else if Entering(pc) || Looking(pc) {
      EnterKeepsItems(st, t);
    } else {
      TakeKeepsItems(st, t);
    }
  }

  lemma StepMoves(st: State, t: Tid, a: Action)
    requires Step(st, t, a).Some? && (Unlinked(PcOf(st, t)) ==> PcOf(st, t).qi in st.cells)
    ensures Moves(st, Step(st, t, a).value, t, a)
  {
    if !a.Run? {
      CallMoves(st, t, a);
    } else if Unlinked(PcOf(st, t)) || WillSignal(PcOf(st, t)) {
      AddMoves(st, t);
    } else {
      GetMoves(st, t);
    }
  }

  /** In a reached state an adder's cell exists. */
  lemma CellExists(trace: seq<Event>, t: Tid)
    requires Exec(trace).Some?
    ensures Unlinked(PcOf(Exec(trace).value, t)) ==> PcOf(Exec(trace).value, t).qi in Exec(trace).value.cells
  {
    var s := ReachableInv(trace);
    assert t in Exec(trace).value.threads ==> ThreadOk(Exec(trace).value, t, s);
  }

  // ---------------------------------------------------------------- every trace

  /** What a thread carries is what its latest call was given. */
  lemma {:induction false} CarriedIsCalled(trace: seq<Event>, t: Tid)
    requires Exec(trace).Some? && Carried(Exec(trace).value, t).Some?
    ensures LatestCall(trace, t) == Carried(Exec(trace).value, t)
    decreases |trace|
  {
    var before, e := trace[..|trace| - 1], trace[|trace| - 1];
    var st := Exec(before).value;
    CellExists(before, t);
    if e.tid == t {
      StepMoves(st, t, e.action);
      if !e.action.CallAdd? {
        CarriedIsCalled(before, t);
      }
    } else {
      OthersKeep(st, e.tid, e.action, t);
      CarriedIsCalled(before, t);
    }
  }

  /** A step that lengthens `pushed` appends the argument of its thread's latest call. */
  lemma PushedIsCalled(trace: seq<Event>, t: Tid, a: Action)
    requires Exec(trace).Some? && Step(Exec(trace).value, t, a).Some?
    requires Step(Exec(trace).value, t, a).value.pushed != Exec(trace).value.pushed
    ensures LatestCall(trace, t).Some?
    ensures Step(Exec(trace).value, t, a).value.pushed == Exec(trace).value.pushed + [LatestCall(trace, t).value]
  {
    CellExists(trace, t);
    StepMoves(Exec(trace).value, t, a);
    CarriedIsCalled(trace, t);
  }

  // ---------------------------------------------------------------- counting

  ghost function Carriers(st: State, x: Item): set<Tid> {
    set t | t in st.threads && Carried(st, t) == Some(x)
  }

  lemma SizeMoves(w: set<Tid>, w': set<Tid>, t: Tid)
    requires w' - {t} == w - {t}
    ensures |w'| == |w| + Bit(t in w') - Bit(t in w)
  {
    assert |w'| == |w' - {t}| + Bit(t in w');
    assert |w| == |w - {t}| + Bit(t in w);
  }

  lemma CarriersMove(st: State, st': State, t: Tid, x: Item)
    requires t in st'.threads && st'.threads == st.threads[t := st'.threads[t]]
    requires forall u :: u in st.threads && u != t ==> Carried(st', u) == Carried(st, u)
    ensures |Carriers(st', x)| == |Carriers(st, x)| + Bit(Carried(st', t) == Some(x)) - Bit(Carried(st, t) == Some(x))
  {
    var w, w' := Carriers(st, x), Carriers(st', x);
    forall u
      ensures u in w' - {t} <==> u in w - {t}
    {
    }
    SizeMoves(w, w', t);
    assert t in w <==> Carried(st, t) == Some(x);
    assert t in w' <==> Carried(st', t) == Some(x);
  }

  ghost predicate Account(trace: seq<Event>, x: Item)
    requires Exec(trace).Some?
  {
    multiset(CallItems(trace))[x] ==
      multiset(Exec(trace).value.pushed)[x] + |Carriers(Exec(trace).value, x)| + multiset(Dropped(trace))[x]
  }

  /** Every argument of a call was pushed, is still carried by its thread, or was given up. */
  lemma {:induction false} EveryCallAccounted(trace: seq<Event>, x: Item)
    requires Exec(trace).Some?
    ensures Account(trace, x)
    decreases |trace|
  {
    if trace == [] {
      assert Carriers(Initial(), x) == {};
    } else {
      var before, e := trace[..|trace| - 1], trace[|trace| - 1];
      var st, st' := Exec(before).value, Exec(trace).value;
      EveryCallAccounted(before, x);
      CellExists(before, e.tid);
      StepMoves(st, e.tid, e.action);
      StepKeepsItems(st, e.tid, e.action);
      forall u | u in st.threads && u != e.tid
        ensures Carried(st', u) == Carried(st, u)
      {
        CellExists(before, u);
        OthersKeep(st, e.tid, e.action, u);
      }
      CarriersMove(st, st', e.tid, x);
    }
  }

  /** No item is pushed or returned that no call was given, and none more often than it was given. */
  lemma OnlyCalledItems(trace: seq<Event>)
    requires Exec(trace).Some?
    ensures multiset(Exec(trace).value.pushed) <= multiset(CallItems(trace))
    ensures multiset(Exec(trace).value.returned) <= multiset(CallItems(trace))
  {
    var st := Exec(trace).value;
    forall x
      ensures multiset(st.pushed)[x] <= multiset(CallItems(trace))[x]
    {
      EveryCallAccounted(trace, x);
    }
    ReturnedInPushOrder(trace);
    assert st.pushed == st.returned + st.pushed[|st.returned|..];
  }
}

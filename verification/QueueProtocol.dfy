/** The producer/consumer queue of os_lesson/exp_2/queue.c as an interleaved step system.

    Any number of threads call Add_Queue_Item and Get_Queue_Item.  One step runs one C statement
    of one thread, so every interleaving of statements is a trace.  The linked list lives in a
    memory of cells.  `modify_mutex` has an owner.  `read_mutex` is unlocked by threads that do
    not hold it, so it is modelled as a saturating binary semaphore: unlocking a free one leaves
    it free. */
module QueueProtocol {
  import opened Wrappers

  type Addr = nat
  type Tid = nat

  datatype Item = Item(action: string, data: int, sz: nat)

  datatype Cell = Cell(item: Item, next: Option<Addr>)

  /** The statement a thread runs next. */
  datatype Pc =
    | Idle
    | AddAlloc(item: Item)               // calloc and the copy of the arguments
    | AddLock(qi: Addr)                  // lock modify_mutex
    | AddLink(qi: Addr)                  // qi->next = queue->items
    | AddHead(qi: Addr)                  // queue->items = qi
    | AddCount                           // queue->numitems++
    | AddUnlockModify
    | AddUnlockRead
    | GetLockRead
    | GetLockModify
    | GetCheck                           // the test for an empty list
    | GetUnlockEmpty                     // unlock modify_mutex, return NULL
    | GetWalk(pqi: Addr, qi: Addr)       // the while loop over qi->next
    | GetCut(pqi: Addr, qi: Addr)        // pqi->next = NULL
    | GetHead(qi: Addr)                  // if numitems == 1 then items = NULL
    | GetCount(qi: Addr)                 // numitems--
    | GetSignal(qi: Addr)                // if numitems > 0 then unlock read_mutex
    | GetUnlockModify(qi: Addr)          // unlock modify_mutex, return qi

  /** `pushed`, `returned`, `nulls` and `drains` record the run; no step reads them.  A drain is a getter
      that took the last item, so that it keeps read_mutex locked. */
  datatype State = State(
    cells: map<Addr, Cell>,
    items: Option<Addr>,
    numitems: int,
    holder: Option<Tid>,
    readFree: bool,
    threads: map<Tid, Pc>,
    pushed: seq<Item>,
    returned: seq<Item>,
    nulls: nat,
    drains: nat)

  /** What a scheduled thread does; `Run` executes its next statement. */
  datatype Action = CallAdd(item: Item) | CallGet | CallocOk(addr: Addr) | CallocFails | Run

  datatype Event = Event(tid: Tid, action: Action)

  function PcOf(st: State, t: Tid): Pc {
    if t in st.threads then st.threads[t] else Idle
  }

  function At(st: State, t: Tid, pc: Pc): State {
    st.(threads := st.threads[t := pc])
  }

  /** Initialize_Queue: an empty list, modify_mutex free, read_mutex locked. */
  function Initial(): State {
    State(map[], None, 0, None, false, map[], [], [], 0, 0)
  }

  /** One statement of thread `t`; None when the thread is blocked, when it would follow a bad
      pointer, or when the action does not fit its next statement. */
  function Step(st: State, t: Tid, a: Action): Option<State> {
    match (PcOf(st, t), a)
    case (Idle, CallAdd(item)) => Some(At(st, t, AddAlloc(item)))
    case (Idle, CallGet) => Some(At(st, t, GetLockRead))
    case (AddAlloc(_), CallocFails) => Some(At(st, t, Idle))
    case (AddAlloc(item), CallocOk(p)) =>
      if p in st.cells then None
      else Some(At(st, t, AddLock(p)).(cells := st.cells[p := Cell(item, None)]))
    case (_, Run) => RunStep(st, t)
    case _ => None
  }

  // The statements of a getter, in four groups.

  predicate Entering(pc: Pc) {
    pc.GetLockRead? || pc.GetLockModify?
  }

  predicate Looking(pc: Pc) {
    pc.GetCheck? || pc.GetUnlockEmpty? || pc.GetWalk?
  }

  predicate Taking(pc: Pc) {
    pc.GetCut? || pc.GetHead? || pc.GetCount?
  }

  predicate Leaving(pc: Pc) {
    pc.GetSignal? || pc.GetUnlockModify?
  }

  function RunStep(st: State, t: Tid): Option<State> {
    var pc := PcOf(st, t);
    if Entering(pc) then EnterStep(st, t)
    else if Looking(pc) then LookStep(st, t)
    else if Taking(pc) then TakeStep(st, t)
    else if Leaving(pc) then LeaveStep(st, t)
    else AddStep(st, t)
  }

  /** Add_Queue_Item. */
  function AddStep(st: State, t: Tid): Option<State> {
    match PcOf(st, t)
    case AddLock(qi) =>
      if st.holder.None? then Some(At(st, t, AddLink(qi)).(holder := Some(t))) else None
    case AddLink(qi) =>
      if qi in st.cells
      then Some(At(st, t, AddHead(qi)).(cells := st.cells[qi := st.cells[qi].(next := st.items)]))
      else None
    case AddHead(qi) =>
      if qi in st.cells
      then Some(At(st, t, AddCount).(items := Some(qi), pushed := st.pushed + [st.cells[qi].item]))
      else None
    case AddCount => Some(At(st, t, AddUnlockModify).(numitems := st.numitems + 1))
    case AddUnlockModify => Some(At(st, t, AddUnlockRead).(holder := None))
    case AddUnlockRead => Some(At(st, t, Idle).(readFree := true))
    case _ => None
  }

  /** Get_Queue_Item takes both mutexes. */
  function EnterStep(st: State, t: Tid): Option<State> {
    match PcOf(st, t)
    case GetLockRead => if st.readFree then Some(At(st, t, GetLockModify).(readFree := false)) else None
    case GetLockModify => if st.holder.None? then Some(At(st, t, GetCheck).(holder := Some(t))) else None
    case _ => None
  }

  /** It looks for the last item. */
  function LookStep(st: State, t: Tid): Option<State> {
    match PcOf(st, t)
    case GetCheck =>
      if st.items.None? then Some(At(st, t, GetUnlockEmpty))
      else Some(At(st, t, GetWalk(st.items.value, st.items.value)))
    case GetUnlockEmpty => Some(At(st, t, Idle).(holder := None, nulls := st.nulls + 1))
    case GetWalk(pqi, qi) =>
      if qi !in st.cells then None
      else if st.cells[qi].next.None? then Some(At(st, t, GetCut(pqi, qi)))
      else Some(At(st, t, GetWalk(qi, st.cells[qi].next.value)))
    case _ => None
  }

  /** It takes the item off the list. */
  function TakeStep(st: State, t: Tid): Option<State> {
    match PcOf(st, t)
    case GetCut(pqi, qi) =>
      if pqi !in st.cells then None
      else Some(At(st, t, GetHead(qi)).(cells := st.cells[pqi := st.cells[pqi].(next := None)]))
    case GetHead(qi) =>
      Some(At(st, t, GetCount(qi)).(items := if st.numitems == 1 then None else st.items))
    case GetCount(qi) => Some(At(st, t, GetSignal(qi)).(numitems := st.numitems - 1))
    case _ => None
  }

  /** It hands read_mutex on and returns. */
  function LeaveStep(st: State, t: Tid): Option<State> {
    match PcOf(st, t)
    case GetSignal(qi) =>
      if st.numitems > 0 then Some(At(st, t, GetUnlockModify(qi)).(readFree := true))
      else Some(At(st, t, GetUnlockModify(qi)).(drains := st.drains + 1))
    case GetUnlockModify(qi) =>
      if qi in st.cells
      then Some(At(st, t, Idle).(holder := None, returned := st.returned + [st.cells[qi].item]))
      else None
    case _ => None
  }

  /** The state after a whole trace, if every event of it can happen. */
  function Exec(trace: seq<Event>): Option<State> {
    if trace == [] then Some(Initial())
    else
      var before := Exec(trace[..|trace| - 1]);
      var e := trace[|trace| - 1];
      if before.None? then None else Step(before.value, e.tid, e.action)
  }

  // ---------------------------------------------------------------- the list in memory

  /** `s` is the chain of cells reached from `head` by following next pointers to NULL. */
  ghost predicate IsList(cells: map<Addr, Cell>, head: Option<Addr>, s: seq<Addr>)
    decreases |s|
  {
    if s == [] then head.None?
    else head == Some(s[0]) && s[0] in cells && IsList(cells, cells[s[0]].next, s[1..])
  }

  ghost predicate Distinct(s: seq<Addr>) {
    forall i, j :: 0 <= i < j < |s| ==> s[i] != s[j]
  }

  function Payload(cells: map<Addr, Cell>, s: seq<Addr>): seq<Item>
    requires forall a :: a in s ==> a in cells
  {
    seq(|s|, i requires 0 <= i < |s| => cells[s[i]].item)
  }

  function Reversed<T>(s: seq<T>): (r: seq<T>)
    ensures |r| == |s|
    ensures forall i :: 0 <= i < |s| ==> r[i] == s[|s| - 1 - i]
  {
    seq(|s|, i requires 0 <= i < |s| => s[|s| - 1 - i])
  }

  function After(s: seq<Addr>, i: nat): Option<Addr> {
    if i + 1 < |s| then Some(s[i + 1]) else None
  }

  /** Pointwise reading of IsList, which is what the proofs use. */
  ghost predicate Linked(cells: map<Addr, Cell>, head: Option<Addr>, s: seq<Addr>) {
    && (head == if s == [] then None else Some(s[0]))
    && (forall i :: 0 <= i < |s| ==> s[i] in cells)
    && (forall i :: 0 <= i < |s| ==> cells[s[i]].next == After(s, i))
  }

  lemma {:induction false} LinkedIsList(cells: map<Addr, Cell>, head: Option<Addr>, s: seq<Addr>)
    ensures Linked(cells, head, s) <==> IsList(cells, head, s)
    decreases |s|
  {
    if s != [] {
      if Linked(cells, head, s) {
        var r := s[1..];
        assert cells[s[0]].next == After(s, 0);
        assert forall i :: 0 <= i < |r| ==> r[i] == s[i + 1] && After(r, i) == After(s, i + 1);
        assert Linked(cells, cells[s[0]].next, r);
        LinkedIsList(cells, cells[s[0]].next, s[1..]);
      }
      if IsList(cells, head, s) {
        LinkedIsList(cells, cells[s[0]].next, s[1..]);
        var r := s[1..];
        assert Linked(cells, cells[s[0]].next, r);
        forall i | 0 <= i < |s|
          ensures s[i] in cells && cells[s[i]].next == After(s, i)
        {
          if i > 0 {
            assert r[i - 1] == s[i] && After(r, i - 1) == After(s, i);
          }
        }
      }
    }
  }

  lemma {:induction false} ListIsUnique(cells: map<Addr, Cell>, head: Option<Addr>, s: seq<Addr>, r: seq<Addr>)
    requires IsList(cells, head, s) && IsList(cells, head, r)
    ensures s == r
    decreases |s|
  {
    if s != [] && r != [] {
      ListIsUnique(cells, cells[s[0]].next, s[1..], r[1..]);
    }
  }

  // ---------------------------------------------------------------- the invariant

  predicate InCritical(pc: Pc) {
    pc.AddLink? || pc.AddHead? || pc.AddCount? || pc.AddUnlockModify? || pc.GetCheck? || pc.GetUnlockEmpty? ||
    pc.GetWalk? || pc.GetCut? || pc.GetHead? || pc.GetCount? || pc.GetSignal? || pc.GetUnlockModify?
  }

  /** An adder that owns a cell it has not yet put on the list. */
  predicate Unlinked(pc: Pc) {
    pc.AddLock? || pc.AddLink? || pc.AddHead?
  }

  /** An adder that has put its item on the list and not yet unlocked read_mutex. */
  predicate WillSignal(pc: Pc) {
    pc.AddCount? || pc.AddUnlockModify? || pc.AddUnlockRead?
  }

  /** A getter that took read_mutex and has not yet passed the statement that may hand it on. */
  predicate HoldsToken(pc: Pc) {
    pc.GetLockModify? || pc.GetCheck? || pc.GetWalk? || pc.GetCut? || pc.GetHead? || pc.GetCount? || pc.GetSignal?
  }

  /** A getter between cutting the last cell off and returning it. */
  predicate HasCut(pc: Pc) {
    pc.GetHead? || pc.GetCount? || pc.GetSignal? || pc.GetUnlockModify?
  }

  ghost predicate NonEmptyIsAnnounced(st: State, s: seq<Addr>) {
    s != [] ==>
      st.readFree || exists t :: t in st.threads && (WillSignal(st.threads[t]) || HoldsToken(st.threads[t]))
  }

  /** A thread is in its critical section exactly when it holds modify_mutex, and an adder's cell is
      off the list until the adder links it. */
  ghost predicate ThreadOk(st: State, t: Tid, s: seq<Addr>) {
    && (InCritical(PcOf(st, t)) <==> st.holder == Some(t))
    && (Unlinked(PcOf(st, t)) ==> PcOf(st, t).qi in st.cells && PcOf(st, t).qi !in s)
  }

  /** Mutual exclusion, and no adder's private cell is shared. */
  ghost predicate ThreadsOk(st: State, s: seq<Addr>) {
    && (forall t :: t in st.threads ==> ThreadOk(st, t, s))
    && (st.holder.Some? ==> st.holder.value in st.threads)
    && (forall t, u :: t in st.threads && u in st.threads && t != u ==>
          Unlinked(st.threads[t]) && Unlinked(st.threads[u]) ==> st.threads[t].qi != st.threads[u].qi)
  }

  ghost function Owner(st: State): Pc {
    if st.holder.Some? then PcOf(st, st.holder.value) else Idle
  }

  /** `qi` is a cell of the list and `pqi` the one before it (the first cell has itself). */
  ghost predicate WalkingOn(s: seq<Addr>, pqi: Addr, qi: Addr) {
    exists k :: 0 <= k < |s| && s[k] == qi && pqi == Before(s, k)
  }

  function Before(s: seq<Addr>, k: nat): Addr
    requires k < |s|
  {
    if k == 0 then s[0] else s[k - 1]
  }

  /** The list and the count as the owner of modify_mutex left them. */
  ghost predicate ListOk(st: State, s: seq<Addr>) {
    var pc := Owner(st);
    && Distinct(s)
    && (if pc.GetHead? && s == []
        then st.items == Some(pc.qi) && pc.qi in st.cells && st.cells[pc.qi].next.None?
        else Linked(st.cells, st.items, s))
    && st.numitems == |s| + (if pc.AddCount? then -1 else if pc.GetHead? || pc.GetCount? then 1 else 0)
    && (pc.AddHead? ==> pc.qi in st.cells && st.cells[pc.qi].next == st.items)
    && (pc.GetUnlockEmpty? ==> s == [])
    && (pc.GetWalk? ==> WalkingOn(s, pc.pqi, pc.qi))
    && (pc.GetCut? ==> s != [] && pc.qi == s[|s| - 1] && pc.pqi == Before(s, |s| - 1))
    && (HasCut(pc) ==> pc.qi in st.cells && pc.qi !in s)
  }

  /** First in, first out: what was pushed is what was returned, then the item being returned, then
      the list read from its tail. */
  ghost predicate FifoOk(st: State, s: seq<Addr>) {
    var pc := Owner(st);
    && (forall a :: a in s ==> a in st.cells)
    && (HasCut(pc) ==> pc.qi in st.cells)
    && st.pushed == st.returned + (if HasCut(pc) then [st.cells[pc.qi].item] else []) + Reversed(Payload(st.cells, s))
  }

  /** A list emptied again was drained, or is being drained. */
  ghost predicate DrainsOk(st: State, s: seq<Addr>) {
    s == [] && st.pushed != [] ==> st.drains > 0 || (HasCut(Owner(st)) && !Owner(st).GetUnlockModify?)
  }

  ghost predicate Inv(st: State, s: seq<Addr>) {
    ThreadsOk(st, s) && ListOk(st, s) && FifoOk(st, s) && NonEmptyIsAnnounced(st, s) && DrainsOk(st, s)
  }

  // ---------------------------------------------------------------- every step keeps it

  /** The list after one step of `t`. */
  ghost function NextList(st: State, t: Tid, a: Action, s: seq<Addr>): seq<Addr> {
    var pc := PcOf(st, t);
    if a.Run? && pc.AddHead? then [pc.qi] + s
    else if a.Run? && pc.GetCut? && s != [] then s[..|s| - 1]
    else s
  }

  /** What a step of `t` does to the threads and the mutexes, whichever statement it runs. */
  ghost predicate Shape(st: State, st': State, t: Tid, s: seq<Addr>, s': seq<Addr>) {
    && t in st'.threads
    && var pc, pc' := PcOf(st, t), st'.threads[t];
    && st'.threads == st.threads[t := pc']
    && (|| st'.holder == st.holder
        || (st'.holder == Some(t) && st.holder == None)
        || (st'.holder == None && st.holder == Some(t)))
    && ThreadOk(st', t, s')
    && (Unlinked(pc') ==> pc'.qi !in st.cells || (Unlinked(pc) && pc.qi == pc'.qi))
    && (s' != [] && (s == [] || WillSignal(pc) || HoldsToken(pc) || st.readFree) ==>
          st'.readFree || WillSignal(pc') || HoldsToken(pc'))
    && (forall c :: c in s' ==> c in s || (Unlinked(pc) && c == pc.qi))
    && (forall c :: c in st.cells ==> c in st'.cells && st'.cells[c].item == st.cells[c].item)
  }

  lemma CallShape(st: State, t: Tid, a: Action, s: seq<Addr>)
    requires ThreadOk(st, t, s) && Step(st, t, a).Some? && !a.Run?
    requires forall c :: c in s ==> c in st.cells
    ensures Shape(st, Step(st, t, a).value, t, s, s)
  {
  }

  lemma AddShape(st: State, t: Tid, s: seq<Addr>)
    requires ThreadOk(st, t, s) && RunStep(st, t).Some?
    requires WillSignal(PcOf(st, t)) || Unlinked(PcOf(st, t))
    ensures Shape(st, RunStep(st, t).value, t, s, NextList(st, t, Run, s))
  {
  }

  lemma EnterShape(st: State, t: Tid, s: seq<Addr>)
    requires ThreadOk(st, t, s) && RunStep(st, t).Some? && Entering(PcOf(st, t))
    ensures Shape(st, RunStep(st, t).value, t, s, NextList(st, t, Run, s))
  {
  }

  lemma LookShape(st: State, t: Tid, s: seq<Addr>)
    requires ThreadOk(st, t, s) && RunStep(st, t).Some? && Looking(PcOf(st, t))
    requires PcOf(st, t).GetUnlockEmpty? || (PcOf(st, t).GetCheck? && st.items.None?) ==> s == []
    ensures Shape(st, RunStep(st, t).value, t, s, NextList(st, t, Run, s))
  {
  }

  lemma TakeShape(st: State, t: Tid, s: seq<Addr>)
    requires ThreadOk(st, t, s) && RunStep(st, t).Some? && Taking(PcOf(st, t))
    ensures Shape(st, RunStep(st, t).value, t, s, NextList(st, t, Run, s))
  {
  }

  lemma LeaveShape(st: State, t: Tid, s: seq<Addr>)
    requires ThreadOk(st, t, s) && RunStep(st, t).Some? && Leaving(PcOf(st, t))
    requires PcOf(st, t).GetSignal? ==> st.numitems == |s|
    ensures Shape(st, RunStep(st, t).value, t, s, NextList(st, t, Run, s))
  {
  }

  lemma GetShape(st: State, t: Tid, s: seq<Addr>)
    requires ThreadOk(st, t, s) && RunStep(st, t).Some?
    requires !WillSignal(PcOf(st, t)) && !Unlinked(PcOf(st, t))
    requires InCritical(PcOf(st, t)) ==> ListOk(st, s)
    ensures Shape(st, RunStep(st, t).value, t, s, NextList(st, t, Run, s))
  {
    var pc := PcOf(st, t);
    if Entering(pc) {
      EnterShape(st, t, s);
    } else if Looking(pc) {
      LookShape(st, t, s);
    } else if Taking(pc) {
      TakeShape(st, t, s);
    } else {
      LeaveShape(st, t, s);
    }
  }

  lemma ThreadsKept(st: State, st': State, t: Tid, s: seq<Addr>, s': seq<Addr>)
    requires ThreadsOk(st, s) && Shape(st, st', t, s, s')
    ensures ThreadsOk(st', s')
  {
  }

  lemma AnnouncedKept(st: State, st': State, t: Tid, s: seq<Addr>, s': seq<Addr>)
    requires NonEmptyIsAnnounced(st, s) && Shape(st, st', t, s, s')
    ensures NonEmptyIsAnnounced(st', s')
  {
    if s != [] && s' != [] && !st.readFree {
      var w :| w in st.threads && (WillSignal(st.threads[w]) || HoldsToken(st.threads[w]));
      assert w in st'.threads;
    }
  }

  /** The list fields of two states agree, and the holder is the same or has just come in. */
  ghost predicate SameList(st: State, st': State) {
    && st'.items == st.items && st'.numitems == st.numitems
    && st'.pushed == st.pushed && st'.returned == st.returned && st'.drains == st.drains
    && (Owner(st') == Owner(st) || (Owner(st).Idle? && (Owner(st').AddLink? || Owner(st').GetCheck?)))
    && (forall c :: c in st.cells ==> c in st'.cells && st'.cells[c] == st.cells[c])
  }

  lemma OutsideStep(st: State, t: Tid, a: Action, s: seq<Addr>)
    requires ThreadOk(st, t, s)
    requires Step(st, t, a).Some? && st.holder != Some(t)
    ensures NextList(st, t, a, s) == s && SameList(st, Step(st, t, a).value)
  {
  }

  lemma SameListOk(st: State, st': State, s: seq<Addr>)
    requires ListOk(st, s) && FifoOk(st, s) && DrainsOk(st, s) && SameList(st, st')
    ensures ListOk(st', s) && FifoOk(st', s) && DrainsOk(st', s)
  {
    assert Payload(st'.cells, s) == Payload(st.cells, s);
  }

  lemma AdderKeepsList(st: State, t: Tid, s: seq<Addr>)
    requires ThreadOk(st, t, s) && ListOk(st, s)
    requires RunStep(st, t).Some? && st.holder == Some(t)
    requires WillSignal(PcOf(st, t)) || Unlinked(PcOf(st, t))
    ensures ListOk(RunStep(st, t).value, NextList(st, t, Run, s))
  {
  }

  lemma LookKeepsList(st: State, t: Tid, s: seq<Addr>)
    requires ListOk(st, s) && RunStep(st, t).Some? && st.holder == Some(t) && Looking(PcOf(st, t))
    ensures ListOk(RunStep(st, t).value, NextList(st, t, Run, s))
  {
    var pc := PcOf(st, t);
    if pc.GetWalk? {
      var k :| 0 <= k < |s| && s[k] == pc.qi && pc.pqi == Before(s, k);
      if k + 1 < |s| {
        assert Before(s, k + 1) == s[k];
        assert WalkingOn(s, s[k], s[k + 1]);
      }
    } else if pc.GetCheck? && s != [] {
      assert Before(s, 0) == s[0];
      assert WalkingOn(s, s[0], s[0]);
    }
  }

  lemma TakeKeepsList(st: State, t: Tid, s: seq<Addr>)
    requires ListOk(st, s) && RunStep(st, t).Some? && st.holder == Some(t) && Taking(PcOf(st, t))
    ensures ListOk(RunStep(st, t).value, NextList(st, t, Run, s))
  {
  }

  lemma LeaveKeepsList(st: State, t: Tid, s: seq<Addr>)
    requires ListOk(st, s) && RunStep(st, t).Some? && st.holder == Some(t) && Leaving(PcOf(st, t))
    ensures ListOk(RunStep(st, t).value, NextList(st, t, Run, s))
  {
  }

  lemma GetterKeepsList(st: State, t: Tid, s: seq<Addr>)
    requires ThreadOk(st, t, s) && ListOk(st, s) && RunStep(st, t).Some? && st.holder == Some(t)
    requires !WillSignal(PcOf(st, t)) && !Unlinked(PcOf(st, t))
    ensures ListOk(RunStep(st, t).value, NextList(st, t, Run, s))
  {
    var pc := PcOf(st, t);
    if Looking(pc) {
      LookKeepsList(st, t, s);
    } else if Taking(pc) {
      TakeKeepsList(st, t, s);
    } else {
      LeaveKeepsList(st, t, s);
    }
  }

  lemma PushKeepsFifo(st: State, t: Tid, s: seq<Addr>)
    requires FifoOk(st, s) && st.holder == Some(t)
    requires PcOf(st, t).AddHead? && RunStep(st, t).Some?
    ensures FifoOk(RunStep(st, t).value, [PcOf(st, t).qi] + s)
  {
    var qi := PcOf(st, t).qi;
    assert Reversed(Payload(st.cells, [qi] + s)) == Reversed(Payload(st.cells, s)) + [st.cells[qi].item];
  }

  lemma CutKeepsFifo(st: State, t: Tid, s: seq<Addr>)
    requires FifoOk(st, s) && st.holder == Some(t)
    requires PcOf(st, t).GetCut? && RunStep(st, t).Some?
    requires s != [] && PcOf(st, t).qi == s[|s| - 1]
    ensures FifoOk(RunStep(st, t).value, s[..|s| - 1])
  {
    var st' := RunStep(st, t).value;
    var s' := s[..|s| - 1];
    assert [st.cells[PcOf(st, t).qi].item] + Reversed(Payload(st'.cells, s')) == Reversed(Payload(st.cells, s));
  }

  lemma AdderKeepsFifo(st: State, t: Tid, s: seq<Addr>)
    requires FifoOk(st, s) && RunStep(st, t).Some? && st.holder == Some(t)
    requires WillSignal(PcOf(st, t)) || Unlinked(PcOf(st, t))
    ensures FifoOk(RunStep(st, t).value, NextList(st, t, Run, s))
  {
    if PcOf(st, t).AddHead? {
      PushKeepsFifo(st, t, s);
    } else {
      assert Payload(RunStep(st, t).value.cells, s) == Payload(st.cells, s);
    }
  }

  lemma GetterKeepsFifo(st: State, t: Tid, s: seq<Addr>)
    requires FifoOk(st, s) && RunStep(st, t).Some? && st.holder == Some(t)
    requires !WillSignal(PcOf(st, t)) && !Unlinked(PcOf(st, t))
    requires PcOf(st, t).GetCut? ==> s != [] && PcOf(st, t).qi == s[|s| - 1]
    ensures FifoOk(RunStep(st, t).value, NextList(st, t, Run, s))
  {
    if PcOf(st, t).GetCut? {
      CutKeepsFifo(st, t, s);
    } else {
      assert Payload(RunStep(st, t).value.cells, s) == Payload(st.cells, s);
    }
  }

  lemma AdderKeepsDrains(st: State, t: Tid, s: seq<Addr>)
    requires DrainsOk(st, s) && RunStep(st, t).Some? && st.holder == Some(t)
    requires WillSignal(PcOf(st, t)) || Unlinked(PcOf(st, t))
    ensures DrainsOk(RunStep(st, t).value, NextList(st, t, Run, s))
  {
  }

  lemma GetterKeepsDrains(st: State, t: Tid, s: seq<Addr>)
    requires ThreadOk(st, t, s) && DrainsOk(st, s) && ListOk(st, s) && RunStep(st, t).Some? && st.holder == Some(t)
    requires !WillSignal(PcOf(st, t)) && !Unlinked(PcOf(st, t))
    ensures DrainsOk(RunStep(st, t).value, NextList(st, t, Run, s))
  {
  }

  lemma StepShape(st: State, t: Tid, a: Action, s: seq<Addr>)
    requires Inv(st, s) && ThreadOk(st, t, s) && Step(st, t, a).Some?
    ensures Shape(st, Step(st, t, a).value, t, s, NextList(st, t, a, s))
  {
    if !a.Run? {
      CallShape(st, t, a, s);
    } else if WillSignal(PcOf(st, t)) || Unlinked(PcOf(st, t)) {
      AddShape(st, t, s);
    } else {
      GetShape(st, t, s);
    }
  }

  lemma HolderKeeps(st: State, t: Tid, s: seq<Addr>)
    requires ThreadOk(st, t, s) && ListOk(st, s) && FifoOk(st, s) && DrainsOk(st, s)
    requires RunStep(st, t).Some? && st.holder == Some(t)
    ensures var st', s' := RunStep(st, t).value, NextList(st, t, Run, s);
      ListOk(st', s') && FifoOk(st', s') && DrainsOk(st', s')
  {
    if WillSignal(PcOf(st, t)) || Unlinked(PcOf(st, t)) {
      AdderKeepsList(st, t, s);
      AdderKeepsFifo(st, t, s);
      AdderKeepsDrains(st, t, s);
    } else {
      GetterKeepsList(st, t, s);
      GetterKeepsFifo(st, t, s);
      GetterKeepsDrains(st, t, s);
    }
  }

  lemma StepKeepsList(st: State, t: Tid, a: Action, s: seq<Addr>)
    requires ThreadOk(st, t, s) && ListOk(st, s) && FifoOk(st, s) && DrainsOk(st, s) && Step(st, t, a).Some?
    ensures var st', s' := Step(st, t, a).value, NextList(st, t, a, s);
      ListOk(st', s') && FifoOk(st', s') && DrainsOk(st', s')
  {
    if st.holder == Some(t) {
      OnlyRuns(st, t, a);
      HolderKeeps(st, t, s);
    } else {
      OutsideStep(st, t, a, s);
      SameListOk(st, Step(st, t, a).value, s);
    }
  }

  lemma OnlyRuns(st: State, t: Tid, a: Action)
    requires Step(st, t, a).Some? && InCritical(PcOf(st, t))
    ensures a.Run?
  {
  }

  /** Every step of every thread keeps the invariant. */
  lemma StepKeepsInv(st: State, t: Tid, a: Action, s: seq<Addr>)
    requires Inv(st, s) && Step(st, t, a).Some?
    ensures Inv(Step(st, t, a).value, NextList(st, t, a, s))
  {
    var st' := Step(st, t, a).value;
    var s' := NextList(st, t, a, s);
    assert ThreadOk(st, t, s);
    StepShape(st, t, a, s);
    ThreadsKept(st, st', t, s, s');
    AnnouncedKept(st, st', t, s, s');
    StepKeepsList(st, t, a, s);
  }

  // ---------------------------------------------------------------- theorems over every trace

  lemma {:induction false} ReachableInv(trace: seq<Event>) returns (s: seq<Addr>)
    requires Exec(trace).Some?
    ensures Inv(Exec(trace).value, s)
    decreases |trace|
  {
    if trace == [] {
      s := [];
    } else {
      var e := trace[|trace| - 1];
      var r := ReachableInv(trace[..|trace| - 1]);
      var before := Exec(trace[..|trace| - 1]).value;
      StepKeepsInv(before, e.tid, e.action, r);
      s := NextList(before, e.tid, e.action, r);
    }
  }

  /** Whenever modify_mutex is free the memory holds one well-formed list, numitems is its length,
      and the items pushed so far, in order, are those returned so far followed by the list read
      from its tail. */
  lemma FifoConservation(trace: seq<Event>)
    requires Exec(trace).Some? && Exec(trace).value.holder.None?
    ensures exists s :: IsList(Exec(trace).value.cells, Exec(trace).value.items, s)
    ensures var st := Exec(trace).value;
      forall s :: IsList(st.cells, st.items, s) ==>
        && st.numitems == |s|
        && (forall a :: a in s ==> a in st.cells)
        && st.pushed == st.returned + Reversed(Payload(st.cells, s))
  {
    var st := Exec(trace).value;
    var s := ReachableInv(trace);
    LinkedIsList(st.cells, st.items, s);
    forall r | IsList(st.cells, st.items, r)
      ensures r == s
    {
      ListIsUnique(st.cells, st.items, s, r);
    }
  }

  /** At every moment, even inside a critical section, the items returned are the first ones pushed. */
  lemma ReturnedInPushOrder(trace: seq<Event>)
    requires Exec(trace).Some?
    ensures Exec(trace).value.returned <= Exec(trace).value.pushed
  {
    var s := ReachableInv(trace);
    var st := Exec(trace).value;
    assert st.pushed[..|st.returned|] == st.returned;
  }

  /** No lost wakeup: while the list is not empty, read_mutex is free, or an adder that has pushed is
      about to unlock it, or a getter that took it has yet to decide whether to hand it on. */
  lemma NoLostWakeup(trace: seq<Event>)
    requires Exec(trace).Some? && Exec(trace).value.items.Some?
    ensures var st := Exec(trace).value;
      st.readFree || exists t :: t in st.threads && (WillSignal(st.threads[t]) || HoldsToken(st.threads[t]))
  {
    var s := ReachableInv(trace);
    var st := Exec(trace).value;
    if s == [] {
      assert HoldsToken(st.threads[st.holder.value]);
    }
  }

  lemma MutualExclusion(trace: seq<Event>, t: Tid, u: Tid)
    requires Exec(trace).Some?
    requires InCritical(PcOf(Exec(trace).value, t)) && InCritical(PcOf(Exec(trace).value, u))
    ensures t == u
  {
    var s := ReachableInv(trace);
    assert ThreadOk(Exec(trace).value, t, s) && ThreadOk(Exec(trace).value, u, s);
  }

  /** Only the statement that returns NULL counts one, and drains are never forgotten. */
  lemma StepRecords(st: State, t: Tid, a: Action)
    requires Step(st, t, a).Some?
    ensures Step(st, t, a).value.nulls != st.nulls ==> PcOf(st, t).GetUnlockEmpty?
    ensures Step(st, t, a).value.drains >= st.drains
  {
  }

  /** A step that returns NULL runs in a critical section in which the list is empty and everything
      pushed has been returned. */
  lemma NullOnlyWhenEmpty(trace: seq<Event>, t: Tid, a: Action)
    requires Exec(trace).Some? && Step(Exec(trace).value, t, a).Some?
    requires Step(Exec(trace).value, t, a).value.nulls != Exec(trace).value.nulls
    ensures var st := Exec(trace).value;
      && st.holder == Some(t)
      && st.items.None? && st.numitems == 0
      && st.pushed == st.returned
  {
    StepRecords(Exec(trace).value, t, a);
    var s := ReachableInv(trace);
    assert ThreadOk(Exec(trace).value, t, s);
  }

  lemma AdderCanStep(st: State, t: Tid, s: seq<Addr>)
    requires ThreadOk(st, t, s) && st.holder == Some(t) && (WillSignal(PcOf(st, t)) || Unlinked(PcOf(st, t)))
    ensures RunStep(st, t).Some?
  {
  }

  lemma GetterCanStep(st: State, t: Tid, s: seq<Addr>)
    requires ThreadOk(st, t, s) && ListOk(st, s) && st.holder == Some(t)
    requires !WillSignal(PcOf(st, t)) && !Unlinked(PcOf(st, t))
    ensures RunStep(st, t).Some?
  {
    var pc := PcOf(st, t);
    if pc.GetWalk? {
      var k :| 0 <= k < |s| && s[k] == pc.qi && pc.pqi == Before(s, k);
    }
  }

  /** The holder of modify_mutex is never blocked and never follows a bad pointer. */
  lemma HolderCanStep(trace: seq<Event>)
    requires Exec(trace).Some? && Exec(trace).value.holder.Some?
    ensures RunStep(Exec(trace).value, Exec(trace).value.holder.value).Some?
  {
    var s := ReachableInv(trace);
    var st := Exec(trace).value;
    var t := st.holder.value;
    assert ThreadOk(st, t, s);
    if WillSignal(PcOf(st, t)) || Unlinked(PcOf(st, t)) {
      AdderCanStep(st, t, s);
    } else {
      GetterCanStep(st, t, s);
    }
  }

  /** No thread inside a call can take another step. */
  ghost predicate Stuck(st: State) {
    forall t, a :: t in st.threads && !st.threads[t].Idle? ==> Step(st, t, a).None?
  }

  lemma HeldIsNotStuck(trace: seq<Event>)
    requires Exec(trace).Some? && Exec(trace).value.holder.Some?
    ensures !Stuck(Exec(trace).value)
  {
    var st := Exec(trace).value;
    var s := ReachableInv(trace);
    HolderCanStep(trace);
    assert ThreadOk(st, st.holder.value, s);
    assert Step(st, st.holder.value, Run).Some?;
  }

  /** When all calls are blocked, a getter is waiting only because every pushed item was returned. */
  lemma BlockedMeansDrained(trace: seq<Event>, t: Tid)
    requires Exec(trace).Some? && Stuck(Exec(trace).value)
    requires t in Exec(trace).value.threads && !Exec(trace).value.threads[t].Idle?
    ensures Exec(trace).value.threads[t].GetLockRead?
    ensures Exec(trace).value.items.None? && Exec(trace).value.pushed == Exec(trace).value.returned
  {
    var st := Exec(trace).value;
    var s := ReachableInv(trace);
    if st.holder.Some? {
      HeldIsNotStuck(trace);
      assert false;
    }
    forall u | u in st.threads
      ensures st.threads[u].Idle? || (st.threads[u].GetLockRead? && !st.readFree)
    {
      assert ThreadOk(st, u, s);
      assert Step(st, u, Run).None? || st.threads[u].Idle?;
      assert Step(st, u, CallocFails).None? || st.threads[u].Idle?;
    }
  }

  // ---------------------------------------------------------------- spurious wakeups

  predicate SpendsToken(pc: Pc) {
    HoldsToken(pc) || pc.GetUnlockEmpty?
  }

  ghost function Where(threads: map<Tid, Pc>, p: Pc -> bool): set<Tid> {
    set t | t in threads && p(threads[t])
  }

  function Bit(b: bool): nat {
    if b then 1 else 0
  }

  /** Each NULL, each drain and each signal still under way is paid for by an item pushed. */
  ghost predicate Budget(st: State) {
    st.nulls + st.drains + Bit(st.readFree) + |Where(st.threads, WillSignal)| + |Where(st.threads, SpendsToken)| <=
      |st.pushed|
  }

  lemma CountMoves(threads: map<Tid, Pc>, t: Tid, pc: Pc, p: Pc -> bool)
    ensures |Where(threads[t := pc], p)| ==
            |Where(threads, p)| + Bit(p(pc)) - Bit(t in threads && p(threads[t]))
  {
    var w, w' := Where(threads, p), Where(threads[t := pc], p);
    assert t in w <==> t in threads && p(threads[t]);
    assert t in w' <==> p(pc);
    assert w' - {t} == w - {t};
    assert |w'| == |w' - {t}| + Bit(t in w');
    assert |w| == |w - {t}| + Bit(t in w);
  }

  ghost predicate Spends(st: State, st': State, t: Tid) {
    && t in st'.threads && st'.threads == st.threads[t := st'.threads[t]]
    && var pc, pc' := PcOf(st, t), st'.threads[t];
    st'.nulls + st'.drains + Bit(st'.readFree) + Bit(WillSignal(pc')) + Bit(SpendsToken(pc')) - |st'.pushed| <=
      st.nulls + st.drains + Bit(st.readFree) + Bit(WillSignal(pc)) + Bit(SpendsToken(pc)) - |st.pushed|
  }

  lemma StepSpends(st: State, t: Tid, a: Action)
    requires Step(st, t, a).Some?
    ensures Spends(st, Step(st, t, a).value, t)
  {
    var pc := PcOf(st, t);
    if a.Run? {
      if WillSignal(pc) || Unlinked(pc) {
        AdderSpends(st, t);
      } else {
        GetterSpends(st, t);
      }
    }
  }

  lemma AdderSpends(st: State, t: Tid)
    requires RunStep(st, t).Some? && (WillSignal(PcOf(st, t)) || Unlinked(PcOf(st, t)))
    ensures Spends(st, RunStep(st, t).value, t)
  {
  }

  lemma EnterSpends(st: State, t: Tid)
    requires RunStep(st, t).Some? && Entering(PcOf(st, t))
    ensures Spends(st, RunStep(st, t).value, t)
  {
  }

  lemma LookSpends(st: State, t: Tid)
    requires RunStep(st, t).Some? && Looking(PcOf(st, t))
    ensures Spends(st, RunStep(st, t).value, t)
  {
  }

  lemma TakeSpends(st: State, t: Tid)
    requires RunStep(st, t).Some? && Taking(PcOf(st, t))
    ensures Spends(st, RunStep(st, t).value, t)
  {
  }

  lemma LeaveSpends(st: State, t: Tid)
    requires RunStep(st, t).Some? && Leaving(PcOf(st, t))
    ensures Spends(st, RunStep(st, t).value, t)
  {
  }

  lemma GetterSpends(st: State, t: Tid)
    requires RunStep(st, t).Some? && !WillSignal(PcOf(st, t)) && !Unlinked(PcOf(st, t))
    ensures Spends(st, RunStep(st, t).value, t)
  {
    var pc := PcOf(st, t);
    if Entering(pc) {
      EnterSpends(st, t);
    } else if Looking(pc) {
      LookSpends(st, t);
    } else if Taking(pc) {
      TakeSpends(st, t);
    } else {
      LeaveSpends(st, t);
    }
  }

  lemma BudgetKept(st: State, t: Tid, a: Action)
    requires Budget(st) && Step(st, t, a).Some?
    ensures Budget(Step(st, t, a).value)
  {
    var st' := Step(st, t, a).value;
    StepSpends(st, t, a);
    CountMoves(st.threads, t, st'.threads[t], WillSignal);
    CountMoves(st.threads, t, st'.threads[t], SpendsToken);
  }

  /** Over any run the NULLs and the drains together are no more than the items pushed. */
  lemma {:induction false} BudgetHolds(trace: seq<Event>)
    requires Exec(trace).Some?
    ensures Budget(Exec(trace).value)
    decreases |trace|
  {
    if trace != [] {
      var e := trace[|trace| - 1];
      BudgetHolds(trace[..|trace| - 1]);
      BudgetKept(Exec(trace[..|trace| - 1]).value, e.tid, e.action);
    } else {
      assert Where(map[], WillSignal) == {} && Where(map[], SpendsToken) == {};
    }
  }

  /** The step that returns NULL finds a list that some getter has drained. */
  lemma NullAfterDrain(trace: seq<Event>, t: Tid)
    requires Exec(trace).Some? && PcOf(Exec(trace).value, t).GetUnlockEmpty?
    ensures Exec(trace).value.drains > 0
  {
    var st := Exec(trace).value;
    var s := ReachableInv(trace);
    BudgetHolds(trace);
    assert t in Where(st.threads, SpendsToken);
    assert ThreadOk(st, t, s);
  }

  lemma {:induction false} NullsNeedDrains(trace: seq<Event>)
    requires Exec(trace).Some? && Exec(trace).value.nulls > 0
    ensures Exec(trace).value.drains > 0
    decreases |trace|
  {
    var before, e := trace[..|trace| - 1], trace[|trace| - 1];
    StepRecords(Exec(before).value, e.tid, e.action);
    if Exec(before).value.nulls > 0 {
      NullsNeedDrains(before);
    } else {
      NullAfterDrain(before, e.tid);
    }
  }

  /** A getter can return NULL, but over any run less often than items were pushed. */
  lemma NullsAreBounded(trace: seq<Event>)
    requires Exec(trace).Some?
    ensures Exec(trace).value.nulls + Exec(trace).value.drains <= |Exec(trace).value.pushed|
    ensures Exec(trace).value.pushed != [] ==> Exec(trace).value.nulls < |Exec(trace).value.pushed|
    ensures Exec(trace).value.pushed == [] ==> Exec(trace).value.nulls == 0
  {
    BudgetHolds(trace);
    if Exec(trace).value.nulls > 0 {
      NullsNeedDrains(trace);
    }
  }
}

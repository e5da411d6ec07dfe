/** The signal queue of the lwIP interface: a ring of 32 slots between the network stack's
    callbacks and the manager's poll, with signals of removed connections blanked out. */
module Signals {
  import opened Wrappers

  /** Connections, by address. */
  type Conn = nat

  datatype Sig = ConnectResult | Recv | SentCb | CloseConn | Tombstone | Accept

  datatype Signal = Signal(sig: Sig, nc: Conn)

  /** MG_SIG_QUEUE_LEN */
  const QUEUE_LEN: nat := 32

  // ---------------------------------------------------------------- the ring

  function Wrap(i: nat): (r: nat)
    ensures r < QUEUE_LEN && (i < QUEUE_LEN ==> r == i) && (QUEUE_LEN <= i < 2 * QUEUE_LEN ==> r == i - QUEUE_LEN)
  {
    i % 32
  }

  function Blank(s: Signal, nc: Conn): Signal {
    if s.nc == nc then s.(sig := Tombstone) else s
  }

  function BlankAll(q: seq<Signal>, nc: Conn): (r: seq<Signal>)
    ensures |r| == |q| && forall i | 0 <= i < |q| :: r[i] == Blank(q[i], nc)
  {
    seq(|q|, i requires 0 <= i < |q| => Blank(q[i], nc))
  }

  /** The `n` slots from `start` on, around the end of the ring. */
  function View(slots: seq<Signal>, start: nat, n: nat): (q: seq<Signal>)
    requires |slots| == QUEUE_LEN
    ensures |q| == n && forall i | 0 <= i < n :: q[i] == slots[Wrap(start + i)]
  {
    seq(n, i requires 0 <= i < n => slots[Wrap(start + i)])
  }

  lemma ViewPosted(slots: seq<Signal>, start: nat, n: nat, s: Signal)
    requires |slots| == QUEUE_LEN && start < QUEUE_LEN && n < QUEUE_LEN
    ensures View(slots[Wrap(start + n) := s], start, n + 1) == View(slots, start, n) + [s]
  {
    var after := slots[Wrap(start + n) := s];
    forall i | 0 <= i < n ensures View(after, start, n + 1)[i] == View(slots, start, n)[i] {
      assert Wrap(start + i) != Wrap(start + n);
    }
  }

  lemma ViewPopped(slots: seq<Signal>, start: nat, n: nat)
    requires |slots| == QUEUE_LEN && start < QUEUE_LEN && 0 < n <= QUEUE_LEN
    ensures View(slots, start, n) == [slots[start]] + View(slots, Wrap(start + 1), n - 1)
  {
    var popped := [slots[start]] + View(slots, Wrap(start + 1), n - 1);
    forall i | 0 <= i < n ensures View(slots, start, n)[i] == popped[i] {
      if i > 0 {
        assert Wrap(Wrap(start + 1) + (i - 1)) == Wrap(start + i);
      }
    }
  }

  lemma ViewBlanked(was: seq<Signal>, now: seq<Signal>, start: nat, n: nat, nc: Conn)
    requires |was| == |now| == QUEUE_LEN && start < QUEUE_LEN && n <= QUEUE_LEN
    requires forall k | 0 <= k < QUEUE_LEN :: now[k] == Blank(was[k], nc)
    ensures View(now, start, n) == BlankAll(View(was, start, n), nc)
  {
  }

  /** mg_ev_mgr_lwip_data */
  class Ring {
    const slots: array<Signal>
    var startIndex: nat
    var queueLen: nat

    ghost predicate Valid()
      reads this
    {
      slots.Length == QUEUE_LEN && startIndex < QUEUE_LEN && queueLen <= QUEUE_LEN
    }

    /** The queued signals, oldest first. */
    ghost function Contents(): (q: seq<Signal>)
      reads this, slots
      requires Valid()
      ensures |q| == queueLen
    {
      View(slots[..], startIndex, queueLen)
    }

    constructor ()
      ensures Valid() && Contents() == [] && fresh(slots)
    {
      slots := new Signal[32](_ => Signal(Tombstone, 0));
      startIndex, queueLen := 0, 0;
    }

    /** mg_lwip_post_signal: a signal that finds the queue full is dropped. */
    method Post(sig: Sig, nc: Conn)
      requires Valid()
      modifies this`queueLen, slots
      ensures Valid()
      ensures Contents() == if old(queueLen) < QUEUE_LEN then old(Contents()) + [Signal(sig, nc)] else old(Contents())
    {
      if queueLen >= QUEUE_LEN {
        return;
      }
      ghost var was := slots[..];
      var endIndex := Wrap(startIndex + queueLen);
      slots[endIndex] := Signal(sig, nc);
      ViewPosted(was, startIndex, queueLen, Signal(sig, nc));
      assert slots[..] == was[endIndex := Signal(sig, nc)];
      queueLen := queueLen + 1;
    }

    /** The head of the queue, as mg_ev_mgr_lwip_process_signals takes it. */
    method Pop() returns (s: Signal)
      requires Valid() && queueLen > 0
      modifies this`startIndex, this`queueLen
      ensures Valid() && old(Contents()) == [s] + Contents()
    {
      s := slots[startIndex];
      ViewPopped(slots[..], startIndex, queueLen);
      startIndex := Wrap(startIndex + 1);
      queueLen := queueLen - 1;
    }

    /** mg_lwip_if_remove_conn: all slots are walked, queued or not. */
    method RemoveConn(nc: Conn)
      requires Valid()
      modifies slots
      ensures Contents() == BlankAll(old(Contents()), nc)
    {
      for i := 0 to QUEUE_LEN
        invariant forall k | 0 <= k < i :: slots[k] == Blank(old(slots[k]), nc)
        invariant forall k | i <= k < QUEUE_LEN :: slots[k] == old(slots[k])
      {
        if slots[i].nc == nc {
          slots[i] := Signal(Tombstone, slots[i].nc);
        }
      }
      ViewBlanked(old(slots[..]), slots[..], startIndex, queueLen, nc);
    }
  }

  // -------------------------------------------------------- all interleavings

  /** The queue with the connections' recv_pending flags. `posted` and `done` record all
      signals accepted and all signals taken out; `lost` the connections whose flag is set
      although no signal is on its way. */
  datatype World = World(queue: seq<Signal>, pending: set<Conn>, lost: set<Conn>,
                         posted: seq<Signal>, done: seq<Signal>)

  const START := World([], {}, {}, [], [])

  datatype Step =
    | Post(sig: Sig, nc: Conn)
    | DataArrives(nc: Conn)
    | Process(attached: bool)
    | Remove(nc: Conn)

  function PostTo(w: World, s: Signal): World {
    if |w.queue| >= QUEUE_LEN then w
    else w.(queue := w.queue + [s], posted := w.posted + [s])
  }

  /** mg_lwip_recv_common: one signal stands for everything that arrives until it is taken. */
  function Arrive(w: World, nc: Conn): World {
    if nc in w.pending then w
    else
      var w1 := w.(pending := w.pending + {nc});
      if |w.queue| >= QUEUE_LEN then w1.(lost := w1.lost + {nc}) else PostTo(w1, Signal(Recv, nc))
  }

  /** One round of mg_ev_mgr_lwip_process_signals; a connection without interface or manager
      is passed over. */
  function Take(w: World, attached: bool): World {
    if w.queue == [] then w
    else
      var s := w.queue[0];
      var w1 := w.(queue := w.queue[1..], done := w.done + [s]);
      if s.sig != Recv then w1
      else if attached then w1.(pending := w.pending - {s.nc}, lost := w.lost - {s.nc})
      else w1.(lost := w.lost + {s.nc})
  }

  /** mg_lwip_if_remove_conn, and the connection's state is gone. */
  function Drop(w: World, nc: Conn): World {
    w.(queue := BlankAll(w.queue, nc), pending := w.pending - {nc}, lost := w.lost - {nc})
  }

  /** Callers post anything but receive signals and tombstones. */
  function Next(w: World, step: Step): World {
    match step
    case Post(sig, nc) => if sig == Recv || sig == Tombstone then w else PostTo(w, Signal(sig, nc))
    case DataArrives(nc) => Arrive(w, nc)
    case Process(attached) => Take(w, attached)
    case Remove(nc) => Drop(w, nc)
  }

  function Run(w: World, steps: seq<Step>): World
    decreases |steps|
  {
    if steps == [] then w else Run(Next(w, steps[0]), steps[1..])
  }

  // --------------------------------------------------------------- invariant

  function IsRecv(s: Signal, nc: Conn): bool {
    s.sig == Recv && s.nc == nc
  }

  function Count(q: seq<Signal>, nc: Conn): nat {
    if q == [] then 0 else (if IsRecv(q[0], nc) then 1 else 0) + Count(q[1..], nc)
  }

  /** `s` is the signal `p`, or what removing its connection has made of it. */
  predicate Stems(s: Signal, p: Signal) {
    s == p || s == Signal(Tombstone, p.nc)
  }

  ghost predicate Inv(w: World) {
    && |w.queue| <= QUEUE_LEN
    && |w.posted| == |w.done| + |w.queue|
    && (forall i | 0 <= i < |w.done| :: Stems(w.done[i], w.posted[i]))
    && (forall i | 0 <= i < |w.queue| :: Stems(w.queue[i], w.posted[|w.done| + i]))
    && (forall nc: Conn :: Count(w.queue, nc) == if nc in w.pending && nc !in w.lost then 1 else 0)
    && w.lost <= w.pending
  }

  lemma {:induction false} CountAppend(q: seq<Signal>, s: Signal, nc: Conn)
    ensures Count(q + [s], nc) == Count(q, nc) + if IsRecv(s, nc) then 1 else 0
  {
    if q == [] {
      var one := [s];
      assert q + [s] == one && one[1..] == [];
    } else {
      assert (q + [s])[1..] == q[1..] + [s];
      CountAppend(q[1..], s, nc);
    }
  }

  lemma {:induction false} CountBlank(q: seq<Signal>, gone: Conn, nc: Conn)
    ensures Count(BlankAll(q, gone), nc) == if nc == gone then 0 else Count(q, nc)
  {
    if q != [] {
      assert BlankAll(q, gone)[1..] == BlankAll(q[1..], gone);
      CountBlank(q[1..], gone, nc);
    }
  }

  lemma PostKeeps(w: World, s: Signal)
    requires |w.queue| < QUEUE_LEN && |w.posted| == |w.done| + |w.queue|
    requires forall i | 0 <= i < |w.done| :: Stems(w.done[i], w.posted[i])
    requires forall i | 0 <= i < |w.queue| :: Stems(w.queue[i], w.posted[|w.done| + i])
    requires w.lost <= w.pending && s.sig != Tombstone
    requires forall nc: Conn :: Count(w.queue, nc) + (if IsRecv(s, nc) then 1 else 0)
                                == if nc in w.pending && nc !in w.lost then 1 else 0
    ensures Inv(PostTo(w, s))
  {
    forall nc: Conn ensures Count(w.queue + [s], nc) == Count(w.queue, nc) + if IsRecv(s, nc) then 1 else 0 {
      CountAppend(w.queue, s, nc);
    }
  }

  lemma ArriveKeeps(w: World, nc: Conn)
    requires Inv(w)
    ensures Inv(Arrive(w, nc))
  {
    if nc !in w.pending {
      var w1 := w.(pending := w.pending + {nc});
      assert Count(w.queue, nc) == 0;
      if |w.queue| < QUEUE_LEN {
        PostKeeps(w1, Signal(Recv, nc));
      }
    }
  }

  lemma TakeKeeps(w: World, attached: bool)
    requires Inv(w)
    ensures Inv(Take(w, attached))
  {
    if w.queue != [] {
      var s, r := w.queue[0], Take(w, attached);
      forall nc: Conn ensures Count(r.queue, nc) == if nc in r.pending && nc !in r.lost then 1 else 0 {
        assert Count(w.queue, nc) == (if IsRecv(s, nc) then 1 else 0) + Count(r.queue, nc);
      }
      assert Count(w.queue, s.nc) >= if s.sig == Recv then 1 else 0;
    }
  }

  lemma DropKeeps(w: World, nc: Conn)
    requires Inv(w)
    ensures Inv(Drop(w, nc))
  {
    forall c: Conn ensures Count(BlankAll(w.queue, nc), c) == if c == nc then 0 else Count(w.queue, c) {
      CountBlank(w.queue, nc, c);
    }
  }

  /** Whatever step comes next: the queue keeps within its size, signals keep their order,
      and there is at most one receive signal for a connection, none without its flag. */
  lemma StepKeeps(w: World, step: Step)
    requires Inv(w)
    ensures Inv(Next(w, step))
  {
    hide Inv, Count;
    match step
    case DataArrives(nc) => ArriveKeeps(w, nc);
    case Process(attached) => TakeKeeps(w, attached);
    case Remove(nc) => DropKeeps(w, nc);
    case Post(sig, nc) =>
      if sig != Recv && sig != Tombstone && |w.queue| < QUEUE_LEN {
        PlainPostKeeps(w, Signal(sig, nc));
      }
  }

  lemma PlainPostKeeps(w: World, s: Signal)
    requires Inv(w) && |w.queue| < QUEUE_LEN && s.sig != Recv && s.sig != Tombstone
    ensures Inv(PostTo(w, s))
  {
    PostKeeps(w, s);
  }

  lemma {:induction false} RunKeeps(w: World, steps: seq<Step>)
    requires Inv(w)
    ensures Inv(Run(w, steps))
    decreases |steps|
  {
    hide Inv, Next;
    if steps != [] {
      StepKeeps(w, steps[0]);
      RunKeeps(Next(w, steps[0]), steps[1..]);
    }
  }

  // ----------------------------------------------------------------- theorems

  /** Over every run, signals are taken out in the order in which they were accepted, each
      as it was posted or blanked, and receive signals match their flags. */
  lemma RunOrdered(steps: seq<Step>)
    ensures
      var w := Run(START, steps);
      && |w.queue| <= QUEUE_LEN && |w.done| + |w.queue| == |w.posted|
      && (forall i | 0 <= i < |w.done| :: Stems(w.done[i], w.posted[i]))
      && (forall nc: Conn :: Count(w.queue, nc) <= 1 && (nc !in w.pending ==> Count(w.queue, nc) == 0))
  {
    assert Inv(START);
    RunKeeps(START, steps);
  }

  /** Positions `from` up to `upTo` hold no live signal of `nc`, in the queue or taken out. */
  ghost predicate Dead(w: World, nc: Conn, from: nat, upTo: nat) {
    && (forall i | from <= i < upTo && i < |w.done| && w.done[i].nc == nc :: w.done[i].sig == Tombstone)
    && (forall i | from <= |w.done| + i < upTo && 0 <= i < |w.queue| && w.queue[i].nc == nc ::
          w.queue[i].sig == Tombstone)
  }

  lemma StepKeepsDead(w: World, step: Step, nc: Conn, from: nat, upTo: nat)
    requires Inv(w) && from <= upTo <= |w.posted| && Dead(w, nc, from, upTo)
    ensures upTo <= |Next(w, step).posted| && Dead(Next(w, step), nc, from, upTo)
  {
    hide Count;
    var r := Next(w, step);
    if step.Process? && w.queue != [] {
      assert forall i | 0 <= i < |r.queue| :: r.queue[i] == w.queue[i + 1];
      forall i | from <= i < upTo && i < |r.done| && r.done[i].nc == nc ensures r.done[i].sig == Tombstone {
        if i == |w.done| {
          assert r.done[i] == w.queue[0];
        }
      }
      forall i | from <= |r.done| + i < upTo && 0 <= i < |r.queue| && r.queue[i].nc == nc
        ensures r.queue[i].sig == Tombstone
      {
        assert r.queue[i] == w.queue[i + 1];
      }
    }
  }

  lemma {:induction false} RunKeepsDead(w: World, steps: seq<Step>, nc: Conn, from: nat, upTo: nat)
    requires Inv(w) && from <= upTo <= |w.posted| && Dead(w, nc, from, upTo)
    ensures Dead(Run(w, steps), nc, from, upTo)
    decreases |steps|
  {
    hide Inv, Next, Dead;
    if steps != [] {
      StepKeeps(w, steps[0]);
      StepKeepsDead(w, steps[0], nc, from, upTo);
      RunKeepsDead(Next(w, steps[0]), steps[1..], nc, from, upTo);
    }
  }

  /** After a connection has been removed, whatever comes later, none of the signals posted
      for it before is ever acted on: what is taken out for it is a tombstone. */
  lemma RemovedNeverActedOn(before: seq<Step>, nc: Conn, after: seq<Step>)
    ensures
      var w := Run(START, before);
      var r := Run(Next(w, Remove(nc)), after);
      forall i | |w.done| <= i < |w.posted| && i < |r.done| && r.done[i].nc == nc :: r.done[i].sig == Tombstone
  {
    assert Inv(START);
    RunKeeps(START, before);
    var w := Run(START, before);
    StepKeeps(w, Remove(nc));
    var gone := Next(w, Remove(nc));
    RunKeepsDead(gone, after, nc, |w.done|, |w.posted|);
  }

  /** Data that arrives while the queue is full sets the flag without a signal, and from
      then on no data of the connection is ever signalled, until it is removed. */
  lemma {:induction false} LostForGood(w: World, steps: seq<Step>, nc: Conn)
    requires Inv(w) && nc in w.lost && Remove(nc) !in steps
    ensures nc in Run(w, steps).lost && Count(Run(w, steps).queue, nc) == 0
    decreases |steps|
  {
    if steps != [] {
      StepKeeps(w, steps[0]);
      assert steps[0] in steps && forall s <- steps[1..] :: s in steps;
      LostStep(w, steps[0], nc);
      LostForGood(Next(w, steps[0]), steps[1..], nc);
    }
  }

  lemma LostStep(w: World, step: Step, nc: Conn)
    requires Inv(w) && nc in w.lost && step != Remove(nc)
    ensures nc in Next(w, step).lost
  {
    if step.Process? && w.queue != [] {
      assert Count(w.queue, nc) == 0;
      assert !IsRecv(w.queue[0], nc);
    }
  }

  /** The flag promises a signal exactly when the queue had room for it. */
  lemma ArrivalSignalled(w: World, nc: Conn)
    requires Inv(w) && nc !in w.pending
    ensures Count(Next(w, DataArrives(nc)).queue, nc) == 1 <==> |w.queue| < QUEUE_LEN
    ensures nc in Next(w, DataArrives(nc)).lost <==> |w.queue| == QUEUE_LEN
  {
    StepKeeps(w, DataArrives(nc));
  }

  /** Once its receive signal has been taken, further data is signalled again exactly when the
      connection was attached; otherwise its flag stays set and nothing more is signalled. */
  lemma SignalledAgainIff(w: World, attached: bool, nc: Conn)
    requires Inv(w) && w.queue != [] && w.queue[0] == Signal(Recv, nc)
    ensures
      var taken := Next(w, Process(attached));
      && (Count(Next(taken, DataArrives(nc)).queue, nc) == 1 <==> attached)
      && (nc in Next(taken, DataArrives(nc)).lost <==> !attached)
  {
    var taken := Next(w, Process(attached));
    StepKeeps(w, Process(attached));
    StepKeeps(taken, DataArrives(nc));
    assert Count(w.queue, nc) == 1 + Count(w.queue[1..], nc);
  }

  /** Any other signal is queued behind the rest exactly when there is room. */
  lemma PostedIff(w: World, sig: Sig, nc: Conn)
    requires Inv(w) && sig != Recv && sig != Tombstone
    ensures Next(w, Post(sig, nc)).queue == (if |w.queue| < QUEUE_LEN then w.queue + [Signal(sig, nc)] else w.queue)
    ensures Next(w, Post(sig, nc)).posted == w.posted <==> |w.queue| == QUEUE_LEN
  {
    if |w.queue| < QUEUE_LEN {
      assert |w.posted + [Signal(sig, nc)]| == |w.posted| + 1;
    }
  }

  /** A run is its steps, one after the other. */
  lemma {:induction false} RunStep(w: World, steps: seq<Step>, step: Step)
    ensures Run(w, []) == w && Run(w, steps + [step]) == Next(Run(w, steps), step)
    decreases |steps|
  {
    hide Next;
    if steps == [] {
      assert [step][1..] == [];
    } else {
      assert (steps + [step])[1..] == steps[1..] + [step];
      RunStep(Next(w, steps[0]), steps[1..], step);
    }
  }

  // ------------------------------------------------------------- the manager

  /** The ring and the recv_pending flags together follow the steps of the world. */
  class Manager {
    const ring: Ring
    var pending: set<Conn>
    ghost var world: World

    ghost predicate Valid()
      reads this, ring, ring.slots
    {
      ring.Valid() && ring.Contents() == world.queue && pending == world.pending && Inv(world)
    }

    constructor ()
      ensures Valid() && world == START && fresh(ring) && fresh(ring.slots)
    {
      ring := new Ring();
      pending, world := {}, START;
    }

    method PostSignal(sig: Sig, nc: Conn)
      requires Valid() && sig != Recv && sig != Tombstone
      modifies this`world, ring, ring.slots
      ensures Valid() && world == Next(old(world), Post(sig, nc))
    {
      hide Inv, View;
      StepKeeps(world, Post(sig, nc));
      ring.Post(sig, nc);
      world := Next(world, Post(sig, nc));
    }

    /** mg_lwip_recv_common */
    method RecvCommon(nc: Conn)
      requires Valid()
      modifies this, ring, ring.slots
      ensures Valid() && world == Next(old(world), DataArrives(nc))
    {
      hide Inv, View;
      StepKeeps(world, DataArrives(nc));
      if nc !in pending {
        pending := pending + {nc};
        ring.Post(Recv, nc);
      }
      world := Next(world, DataArrives(nc));
    }

    /** One round of mg_ev_mgr_lwip_process_signals: the signal that is acted on, if any. */
    method ProcessOne(attached: bool) returns (acted: Option<Signal>)
      requires Valid() && ring.queueLen > 0
      modifies this, ring
      ensures Valid() && world == Next(old(world), Process(attached))
      ensures acted == if attached && old(world).queue[0].sig != Tombstone then Some(old(world).queue[0]) else None
    {
      hide Inv, View;
      StepKeeps(world, Process(attached));
      var s := ring.Pop();
      ghost var was := world;
      world := Next(world, Process(attached));
      assert was.queue == [s] + ring.Contents();
      if !attached {
        return None;
      }
      if s.sig == Recv {
        pending := pending - {s.nc};
      }
      acted := if s.sig == Tombstone then None else Some(s);
    }

    method RemoveConn(nc: Conn)
      requires Valid()
      modifies this, ring.slots
      ensures Valid() && world == Next(old(world), Remove(nc))
    {
      hide Inv, View;
      StepKeeps(world, Remove(nc));
      ring.RemoveConn(nc);
      pending := pending - {nc};
      world := Next(world, Remove(nc));
    }
  }
}

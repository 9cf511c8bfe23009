/**
 * The cooperative coroutine scheduler of repackages/coroutine.h.
 *
 * A schedule owns one shared stack of STACK_SIZE bytes on which every
 * coroutine runs, and a slot table `co` of `cap` entries, `nco` of them
 * occupied.  At most one coroutine runs (`running`, or -1).  A coroutine
 * that yields copies the used top of the shared stack into a private
 * buffer; resuming it copies those bytes back.
 *
 * Machine contexts are not modelled.  The body of a coroutine is seen from
 * outside as two events: it yields now (`Yield`, carrying the depth of the
 * shared stack it uses at that moment) or its entry function returns now
 * (`Finish`, the cleanup of co__mainfunc).
 *
 * The transitions are first stated as functions on a value `Sched`; the
 * class `Scheduler` implements them over the real fields, with the shared
 * stack as an array.
 */
module Coroutine {
  import opened Bytes

  const STACK_SIZE: nat := 1024 * 1024
  const DEFAULT_COROUTINE: nat := 16

  datatype Status = Dead | Ready | Running | Suspend

  /** co_status_t's numeric values. */
  function StatusCode(st: Status): (n: int)
    ensures 0 <= n <= 3
    ensures n == 0 <==> st == Dead
  {
    match st
    case Dead => 0
    case Ready => 1
    case Running => 2
    case Suspend => 3
  }

  /**
   * co_coroutine_t.  `func` and `ud` are opaque tokens for the entry function
   * and its datum.  `stack` is the private snapshot buffer of `cap` bytes
   * (NULL is the empty sequence); the first `size` bytes are the snapshot.
   */
  datatype Co = Co(func: nat, ud: nat, cap: nat, size: nat, status: Status, stack: seq<uint8>)

  ghost predicate CoValid(c: Co)
  {
    |c.stack| == c.cap && c.size <= c.cap && c.size <= STACK_SIZE
  }

  /** co__new: a record that has never run owns no snapshot buffer. */
  function NewCo(func: nat, ud: nat): (c: Co)
    ensures CoValid(c) && c.status == Ready
    ensures c.cap == 0 && c.size == 0 && c.stack == []
    ensures c.func == func && c.ud == ud
  {
    Co(func, ud, 0, 0, Ready, [])
  }

  /** The observable state of a co_schedule_t. */
  datatype Sched = Sched(stack: seq<uint8>, nco: int, cap: int, running: int, co: seq<Option<Co>>)

  function Nones(n: nat): (s: seq<Option<Co>>)
    ensures |s| == n && forall i :: 0 <= i < n ==> s[i].None?
  {
    seq(n, _ => None)
  }

  /** Number of occupied slots. */
  function Live(co: seq<Option<Co>>): (n: nat)
    ensures n <= |co|
  {
    if co == [] then 0 else Live(co[..|co| - 1]) + (if co[|co| - 1].Some? then 1 else 0)
  }

  lemma {:induction false} LiveAppend(a: seq<Option<Co>>, b: seq<Option<Co>>)
    ensures Live(a + b) == Live(a) + Live(b)
    decreases |b|
  {
    if b == [] {
      assert a + b == a;
    } else {
      assert (a + b)[..|a + b| - 1] == a + b[..|b| - 1];
      LiveAppend(a, b[..|b| - 1]);
    }
  }

  lemma {:induction false} LiveNones(n: nat)
    ensures Live(Nones(n)) == 0
  {
    if n > 0 {
      assert Nones(n)[..n - 1] == Nones(n - 1);
      LiveNones(n - 1);
    }
  }

  /** A table whose every slot is occupied has Live == its length; with
      Live(co) <= |co| this is the counting fact behind the probe. */
  lemma {:induction false} LiveFull(co: seq<Option<Co>>)
    requires forall j :: 0 <= j < |co| ==> co[j].Some?
    ensures Live(co) == |co|
  {
    if co != [] {
      LiveFull(co[..|co| - 1]);
    }
  }

  /** Filling or emptying one slot changes Live by exactly one. */
  lemma {:induction false} LiveUpdate(co: seq<Option<Co>>, i: nat, x: Option<Co>)
    requires i < |co|
    ensures Live(co[i := x]) == Live(co) - (if co[i].Some? then 1 else 0) + (if x.Some? then 1 else 0)
  {
    var pre, post := co[..i], co[i + 1..];
    assert co == pre + [co[i]] + post;
    assert co[i := x] == pre + [x] + post;
    LiveAppend(pre + [co[i]], post);
    LiveAppend(pre, [co[i]]);
    LiveAppend(pre + [x], post);
    LiveAppend(pre, [x]);
    assert Live([co[i]]) == if co[i].Some? then 1 else 0 by {
      assert [co[i]][..0] == [];
    }
    assert Live([x]) == if x.Some? then 1 else 0 by {
      assert [x][..0] == [];
    }
  }

  /**
   * The scheduler invariant: `nco` counts the occupied slots, `running` is -1
   * or the one slot whose record is RUNNING, no stored record is DEAD (a
   * finished coroutine is deleted at once), and every record's snapshot fits
   * its buffer and the shared stack.
   */
  ghost predicate Inv(s: Sched)
  {
    && |s.stack| == STACK_SIZE
    && s.cap > 0 && |s.co| == s.cap
    && s.nco == Live(s.co)
    && -1 <= s.running < s.cap
    && (s.running >= 0 ==> s.co[s.running].Some? && s.co[s.running].value.status == Running)
    && (forall i :: 0 <= i < |s.co| && s.co[i].Some? ==>
          CoValid(s.co[i].value) && s.co[i].value.status != Dead &&
          (s.co[i].value.status == Running ==> i == s.running))
  }

  /** coroutine_open: no coroutine, CO_DEFAULT_COROUTINE empty slots, none running. */
  function OpenState(stack: seq<uint8>): Sched
  {
    Sched(stack, 0, DEFAULT_COROUTINE, -1, Nones(DEFAULT_COROUTINE))
  }

  lemma OpenInv(stack: seq<uint8>)
    requires |stack| == STACK_SIZE
    ensures Inv(OpenState(stack))
    ensures forall i :: 0 <= i < OpenState(stack).cap ==> StatusOf(OpenState(stack), i) == Dead
  {
    LiveNones(DEFAULT_COROUTINE);
  }

  /** Step i of the probe of coroutine_new looks at slot (i + nco) % cap. */
  function ProbeSlot(i: int, nco: int, cap: int): (j: int)
    requires cap > 0
    ensures 0 <= j < cap
  {
    (i + nco) % cap
  }

  /**
   * The slot probe of coroutine_new: the first step i >= from whose slot is
   * empty, or cap when the rest of the probe finds none.
   */
  function ProbeFrom(co: seq<Option<Co>>, nco: int, from: nat): (i: nat)
    requires |co| > 0 && from <= |co|
    ensures from <= i <= |co|
    ensures i < |co| ==> co[ProbeSlot(i, nco, |co|)].None?
    ensures forall k :: from <= k < i ==> co[ProbeSlot(k, nco, |co|)].Some?
    decreases |co| - from
  {
    if from == |co| then from
    else if co[ProbeSlot(from, nco, |co|)].None? then from
    else ProbeFrom(co, nco, from + 1)
  }

  /** Every slot index j is visited by the probe, at step (j - nco) % cap. */
  lemma ProbeCovers(cap: int, nco: int, j: int)
    requires cap > 0 && 0 <= j < cap
    ensures 0 <= (j - nco) % cap < cap && ProbeSlot((j - nco) % cap, nco, cap) == j
  {
    var k := (j - nco) % cap;
    var q := (j - nco) / cap;
    assert j - nco == q * cap + k;
    ModUnique(k + nco, cap, -q, j);
  }

  /** When fewer than cap coroutines exist the probe always finds an empty
      slot, so the assert(0) after the loop of coroutine_new is unreachable. */
  lemma ProbeFinds(s: Sched)
    requires Inv(s) && s.nco < s.cap
    ensures ProbeFrom(s.co, s.nco, 0) < s.cap
  {
    var p := ProbeFrom(s.co, s.nco, 0);
    if p == s.cap {
      forall j | 0 <= j < |s.co| ensures s.co[j].Some? {
        ProbeCovers(s.cap, s.nco, j);
        var k := (j - s.nco) % s.cap;
        assert s.co[ProbeSlot(k, s.nco, s.cap)].Some?;
      }
      LiveFull(s.co);
      assert false;
    }
  }

  /**
   * coroutine_new with record `c`.  A full table (nco >= cap) is doubled by
   * realloc (`growOk` is whether realloc succeeded), the new half is zeroed
   * and `c` goes to the old cap; otherwise `c` goes to the probed slot.  The
   * final `(s, -1)` is the assert(0) fall-through.
   */
  function NewSpec(s: Sched, c: Co, growOk: bool): (Sched, int)
    requires |s.co| == s.cap > 0
  {
    if s.nco >= s.cap then
      if !growOk then (s, -1)
      else (s.(co := s.co + [Some(c)] + Nones(s.cap - 1), cap := 2 * s.cap, nco := s.nco + 1), s.cap)
    else
      var p := ProbeFrom(s.co, s.nco, 0);
      if p < s.cap then
        var id := ProbeSlot(p, s.nco, s.cap);
        (s.(co := s.co[id := Some(c)], nco := s.nco + 1), id)
      else (s, -1)
  }

  /** coroutine_new keeps the invariant and only fails when realloc does. */
  lemma NewInv(s: Sched, c: Co, growOk: bool)
    requires Inv(s) && CoValid(c) && c.status == Ready
    ensures Inv(NewSpec(s, c, growOk).0)
    ensures (NewSpec(s, c, growOk).1 == -1) == (s.nco >= s.cap && !growOk)
  {
    if s.nco >= s.cap {
      if growOk {
        GrowInv(s, c);
      }
    } else {
      ProbeFinds(s);
      var p := ProbeFrom(s.co, s.nco, 0);
      PlaceInv(s, c, ProbeSlot(p, s.nco, s.cap));
    }
  }

  /** Doubling a full table and storing the record at the old cap keeps the
      invariant. */
  lemma GrowInv(s: Sched, c: Co)
    requires Inv(s) && CoValid(c) && c.status == Ready && s.nco >= s.cap
    ensures Inv(s.(co := s.co + [Some(c)] + Nones(s.cap - 1), cap := 2 * s.cap, nco := s.nco + 1))
  {
    var co := s.co + [Some(c)] + Nones(s.cap - 1);
    LiveAppend(s.co + [Some(c)], Nones(s.cap - 1));
    LiveAppend(s.co, [Some(c)]);
    assert Live([Some(c)]) == 1 by {
      assert [Some(c)][..0] == [];
    }
    LiveNones(s.cap - 1);
    forall i | s.cap < i < |co|
      ensures co[i].None?
    {
      assert co[i] == Nones(s.cap - 1)[i - s.cap - 1];
    }
    forall i | 0 <= i < |co| && co[i].Some?
      ensures CoValid(co[i].value) && co[i].value.status != Dead && (co[i].value.status == Running ==> i == s.running)
    {
      if i < s.cap {
        assert co[i] == s.co[i];
      }
    }
    if s.running >= 0 {
      assert co[s.running] == s.co[s.running];
    }
  }

  /** Storing a ready record in an empty slot keeps the invariant. */
  lemma PlaceInv(s: Sched, c: Co, id: int)
    requires Inv(s) && CoValid(c) && c.status == Ready && 0 <= id < s.cap && s.co[id].None?
    ensures Inv(s.(co := s.co[id := Some(c)], nco := s.nco + 1))
  {
    LiveUpdate(s.co, id, Some(c));
  }

  /** With room in the table: the record lands in the first empty slot of the
      probe (i + nco) % cap, nco grows by one and no other slot changes. */
  lemma NewProbe(s: Sched, c: Co)
    requires Inv(s) && s.nco < s.cap
    ensures var (t, id) := NewSpec(s, c, true);
      && 0 <= id < s.cap && s.co[id].None? && t.co[id] == Some(c)
      && (exists i :: 0 <= i < s.cap && id == ProbeSlot(i, s.nco, s.cap) &&
            forall k :: 0 <= k < i ==> s.co[ProbeSlot(k, s.nco, s.cap)].Some?)
      && t.cap == s.cap && t.nco == s.nco + 1 && t.running == s.running && t.stack == s.stack
      && (forall j :: 0 <= j < s.cap && j != id ==> t.co[j] == s.co[j])
  {
    ProbeFinds(s);
    var p := ProbeFrom(s.co, s.nco, 0);
    assert 0 <= p < s.cap && ProbeSlot(p, s.nco, s.cap) == NewSpec(s, c, true).1;
  }

  /** With a full table: capacity doubles, the record sits at the old cap,
      which is returned, and the rest of the new half is empty.  When realloc
      fails the table is unchanged and -1 is returned. */
  lemma NewGrow(s: Sched, c: Co, growOk: bool)
    requires Inv(s) && s.nco >= s.cap
    ensures var (t, id) := NewSpec(s, c, growOk);
      && (!growOk ==> t == s && id == -1)
      && (growOk ==>
            && id == s.cap && t.cap == 2 * s.cap && |t.co| == t.cap && t.co[id] == Some(c)
            && t.nco == s.nco + 1 && t.running == s.running && t.stack == s.stack
            && t.co[..s.cap] == s.co
            && (forall j :: s.cap < j < t.cap ==> t.co[j].None?))
  {
    if growOk {
      var t := NewSpec(s, c, growOk).0;
      assert t.co == s.co + [Some(c)] + Nones(s.cap - 1);
      assert t.co[..s.cap] == s.co;
      forall j | s.cap < j < t.cap ensures t.co[j].None? {
        assert t.co[j] == Nones(s.cap - 1)[j - s.cap - 1];
      }
    }
  }

  /** What resume asserts: nothing runs, the id is in range, and the record
      (if any) is READY or SUSPEND (the `default: assert(0)` branch). */
  ghost predicate ResumeAsserts(s: Sched, id: int)
  {
    s.running == -1 && 0 <= id < |s.co| &&
    (s.co[id].Some? ==> s.co[id].value.status == Ready || s.co[id].value.status == Suspend)
  }

  /** From a valid state the callers' two asserts guarantee the third. */
  lemma ResumeAssertsHold(s: Sched, id: int)
    requires Inv(s) && s.running == -1 && 0 <= id < s.cap
    ensures ResumeAsserts(s, id)
  {
  }

  /** The SUSPEND branch of resume: the snapshot is written back to the top
      `size` bytes of the shared stack, [STACK_SIZE - size, STACK_SIZE). */
  function Replay(shared: seq<uint8>, c: Co): (r: seq<uint8>)
    requires c.size <= |c.stack| && c.size <= |shared|
    ensures |r| == |shared|
  {
    shared[..|shared| - c.size] + c.stack[..c.size]
  }

  function ResumeSpec(s: Sched, id: int): Sched
    requires Inv(s) && ResumeAsserts(s, id)
  {
    match s.co[id]
    case None => s
    case Some(c) =>
      var stack := if c.status == Suspend then Replay(s.stack, c) else s.stack;
      s.(stack := stack, running := id, co := s.co[id := Some(c.(status := Running))])
  }

  /** resume keeps the invariant; an occupied slot becomes the running one,
      an empty slot leaves everything as it was. */
  lemma ResumeInv(s: Sched, id: int)
    requires Inv(s) && ResumeAsserts(s, id)
    ensures Inv(ResumeSpec(s, id))
    ensures s.co[id].None? ==> ResumeSpec(s, id) == s
    ensures s.co[id].Some? ==>
      ResumeSpec(s, id).running == id && StatusOf(ResumeSpec(s, id), id) == Running &&
      ResumeSpec(s, id).nco == s.nco && ResumeSpec(s, id).cap == s.cap
  {
    if s.co[id].Some? {
      LiveUpdate(s.co, id, Some(s.co[id].value.(status := Running)));
    }
  }

  /**
   * co__save_stack with the coroutine using the top `depth` bytes of
   * `shared`: the buffer is replaced by one of exactly `depth` bytes only
   * when it is too small, and the snapshot is those top bytes.
   */
  function SaveStack(c: Co, shared: seq<uint8>, depth: nat): Co
    requires CoValid(c) && |shared| == STACK_SIZE && depth <= STACK_SIZE
  {
    var grow := c.cap < depth;
    c.(cap := if grow then depth else c.cap,
       size := depth,
       stack := shared[STACK_SIZE - depth..] + (if grow then [] else c.stack[depth..]))
  }

  /** The private capacity only grows, and afterwards holds the snapshot. */
  lemma SaveStackGrows(c: Co, shared: seq<uint8>, depth: nat)
    requires CoValid(c) && |shared| == STACK_SIZE && depth <= STACK_SIZE
    ensures var d := SaveStack(c, shared, depth);
      CoValid(d) && d.size == depth && d.cap >= c.cap && d.cap >= d.size &&
      (c.cap >= depth ==> d.cap == c.cap) && (c.cap < depth ==> d.cap == depth)
  {
  }

  /** Byte round trip: whatever happened to the shared stack in between,
      replaying a snapshot restores exactly the top `depth` bytes it was taken
      from and leaves the bytes below them untouched. */
  lemma StackRoundTrip(c: Co, shared: seq<uint8>, depth: nat, between: seq<uint8>)
    requires CoValid(c) && |shared| == STACK_SIZE && depth <= STACK_SIZE && |between| == STACK_SIZE
    ensures var d := SaveStack(c, shared, depth);
      Replay(between, d)[STACK_SIZE - depth..] == shared[STACK_SIZE - depth..] &&
      Replay(between, d)[..STACK_SIZE - depth] == between[..STACK_SIZE - depth]
  {
    var d := SaveStack(c, shared, depth);
    assert d.stack[..depth] == shared[STACK_SIZE - depth..];
  }

  /** coroutine_yield by the running coroutine at depth `depth`. */
  function YieldSpec(s: Sched, depth: nat): Sched
    requires Inv(s) && s.running >= 0 && depth <= STACK_SIZE
  {
    var c := s.co[s.running].value;
    s.(co := s.co[s.running := Some(SaveStack(c, s.stack, depth).(status := Suspend))], running := -1)
  }

  lemma YieldInv(s: Sched, depth: nat)
    requires Inv(s) && s.running >= 0 && depth <= STACK_SIZE
    ensures Inv(YieldSpec(s, depth))
    ensures StatusOf(YieldSpec(s, depth), s.running) == Suspend
    ensures YieldSpec(s, depth).running == -1 && YieldSpec(s, depth).nco == s.nco
  {
    var c := s.co[s.running].value;
    SaveStackGrows(c, s.stack, depth);
    LiveUpdate(s.co, s.running, Some(SaveStack(c, s.stack, depth).(status := Suspend)));
  }

  /** co__mainfunc after the entry function returned: the record is deleted,
      its slot emptied, nco decremented and nothing runs any more. */
  function FinishSpec(s: Sched): Sched
    requires Inv(s) && s.running >= 0
  {
    s.(co := s.co[s.running := None], nco := s.nco - 1, running := -1)
  }

  lemma FinishInv(s: Sched)
    requires Inv(s) && s.running >= 0
    ensures Inv(FinishSpec(s))
    ensures StatusOf(FinishSpec(s), s.running) == Dead
    ensures FinishSpec(s).nco == s.nco - 1 && FinishSpec(s).cap == s.cap
  {
    LiveUpdate(s.co, s.running, None);
  }

  /** coroutine_status: an empty slot reads as DEAD. */
  function StatusOf(s: Sched, id: int): (st: Status)
    requires 0 <= id < |s.co|
    ensures st == Dead <==> s.co[id].None? || s.co[id].value.status == Dead
    ensures Inv(s) ==> (st == Running <==> id == s.running)
  {
    if s.co[id].None? then Dead else s.co[id].value.status
  }

  /** A coroutine suspended at depth d, resumed after anything else scribbled
      on the shared stack, finds its top d bytes as it left them. */
  lemma SuspendResumeRestores(s: Sched, depth: nat, between: seq<uint8>)
    requires Inv(s) && s.running >= 0 && depth <= STACK_SIZE && |between| == STACK_SIZE
    ensures var t := YieldSpec(s, depth).(stack := between);
      Inv(t) && ResumeAsserts(t, s.running) &&
      ResumeSpec(t, s.running).stack[STACK_SIZE - depth..] == s.stack[STACK_SIZE - depth..]
  {
    YieldInv(s, depth);
    var id := s.running;
    var c := s.co[id].value;
    StackRoundTrip(c, s.stack, depth, between);
  }

  /** A READY coroutine that is resumed and whose entry function returns
      without yielding ends DEAD, in its old slot, with nothing running. */
  lemma RunToCompletion(s: Sched, id: int)
    requires Inv(s) && s.running == -1 && 0 <= id < s.cap && s.co[id].Some? && s.co[id].value.status == Ready
    ensures var t := ResumeSpec(s, id);
      Inv(t) && t.running == id &&
      StatusOf(FinishSpec(t), id) == Dead && FinishSpec(t).running == -1 && FinishSpec(t).nco == s.nco - 1
  {
    ResumeInv(s, id);
    FinishInv(ResumeSpec(s, id));
  }

  /** co_schedule_t: the shared stack is a fixed-size buffer. */
  class Scheduler {
    var stack: array<uint8>
    var nco: int
    var cap: int
    var running: int
    var co: seq<Option<Co>>

    function Abs(): Sched
      reads this, stack
    {
      Sched(stack[..], nco, cap, running, co)
    }

    ghost predicate Valid()
      reads this, stack
    {
      Inv(Abs())
    }

    constructor ()
      ensures Valid() && fresh(stack) && Abs() == OpenState(stack[..])
    {
      stack := new uint8[STACK_SIZE];
      nco, cap, running := 0, DEFAULT_COROUTINE, -1;
      co := Nones(DEFAULT_COROUTINE);
      new;
      OpenInv(stack[..]);
    }

    /** coroutine_open.  `schedOk` and `tableOk` are the answers of the two
        mallocs; if the second fails the first block is released again. */
    static method Open(schedOk: bool, tableOk: bool) returns (s: Scheduler?)
      ensures (s != null) == (schedOk && tableOk)
      ensures s != null ==> fresh(s) && fresh(s.stack) && s.Valid() && s.Abs() == OpenState(s.stack[..])
    {
      if !schedOk || !tableOk {
        return null;
      }
      s := new Scheduler();
    }

    /** coroutine_close: deletes every stored record (returning how many) and
        releases the table. */
    method Close() returns (released: nat)
      requires Valid()
      modifies this
      ensures released == old(nco)
      ensures co == []
    {
      released := 0;
      var i := 0;
      while i < cap
        invariant 0 <= i <= cap == |co|
        invariant released + Live(co) == old(nco)
        invariant forall k :: 0 <= k < i ==> co[k].None?
      {
        if co[i].Some? {
          LiveUpdate(co, i, None);
          co := co[i := None];
          released := released + 1;
        }
        i := i + 1;
      }
      LiveNones(cap);
      assert co == Nones(cap);
      co := [];
    }

    /** coroutine_new.  `growOk` is realloc's answer when the table is full. */
    method New(func: nat, ud: nat, growOk: bool) returns (id: int)
      requires Valid()
      modifies this
      ensures Valid() && stack == old(stack)
      ensures (Abs(), id) == NewSpec(old(Abs()), NewCo(func, ud), growOk)
    {
      var c := NewCo(func, ud);
      NewInv(Abs(), c, growOk);
      if nco >= cap {
        if !growOk {
          return -1;
        }
        id := cap;
        co := co + [Some(c)] + Nones(cap - 1);
        cap := cap * 2;
        nco := nco + 1;
      } else {
        ProbeFinds(Abs());
        ghost var p := ProbeFrom(co, nco, 0);
        var i := 0;
        while co[ProbeSlot(i, nco, cap)].Some?
          invariant 0 <= i <= p < cap
          decreases p - i
        {
          i := i + 1;
        }
        id := ProbeSlot(i, nco, cap);
        co := co[id := Some(c)];
        nco := nco + 1;
      }
    }

    /** coroutine_resume, up to the switch into the coroutine. */
    method Resume(id: int)
      requires Valid() && running == -1 && 0 <= id < cap
      modifies this, stack
      ensures Valid() && stack == old(stack)
      ensures Abs() == ResumeSpec(old(Abs()), id)
    {
      ResumeAssertsHold(Abs(), id);
      ResumeInv(Abs(), id);
      match co[id]
      case None =>
      case Some(c) =>
        match c.status
        case Ready =>
          running := id;
          co := co[id := Some(c.(status := Running))];
        case Suspend =>
          CopyInto(stack, STACK_SIZE - c.size, c.stack[..c.size]);
          running := id;
          co := co[id := Some(c.(status := Running))];
        case Running => assert false;
        case Dead => assert false;
    }

    /** coroutine_yield by the running coroutine, whose frames occupy the top
        `depth` bytes of the shared stack (asserted to fit by co__save_stack). */
    method Yield(depth: nat)
      requires Valid() && running >= 0 && depth <= STACK_SIZE
      modifies this
      ensures Valid()
      ensures Abs() == YieldSpec(old(Abs()), depth)
    {
      YieldInv(Abs(), depth);
      var c := co[running].value;
      var top := CopyOut(stack, STACK_SIZE - depth, depth);
      var rest := if c.cap < depth then [] else c.stack[depth..];
      var buf := top + rest;
      var newCap := if c.cap < depth then depth else c.cap;
      assert top == stack[..][STACK_SIZE - depth..];
      assert c.(cap := newCap, size := depth, stack := buf, status := Suspend) ==
        SaveStack(c, stack[..], depth).(status := Suspend);
      co := co[running := Some(c.(cap := newCap, size := depth, stack := buf, status := Suspend))];
      running := -1;
    }

    /** The cleanup of co__mainfunc once the entry function has returned. */
    method Finish()
      requires Valid() && running >= 0
      modifies this
      ensures Valid()
      ensures Abs() == FinishSpec(old(Abs()))
    {
      FinishInv(Abs());
      co := co[running := None];
      nco := nco - 1;
      running := -1;
    }

    /** coroutine_status. */
    function StatusAt(id: int): (st: Status)
      reads this, stack
      requires Valid() && 0 <= id < cap
      ensures st == Dead <==> co[id].None?
      ensures st == Running <==> id == running
    {
      StatusOf(Abs(), id)
    }

    /** coroutine_running: -1, or the slot whose record is RUNNING. */
    function RunningId(): (r: int)
      reads this, stack
      requires Valid()
      ensures r == -1 || (0 <= r < cap && StatusAt(r) == Running)
    {
      running
    }
  }
}

/**
 * The instruction-trace client.  Inline code appends one entry per executed
 * instruction to a per-thread buffer of fixed capacity; a clean call at the
 * start of each basic block, and the thread-exit event, drain the buffer into
 * a shared pool of unique instructions: each entry's pc is looked up (or
 * created with the length the decoder reports) and its count bumped by one.
 *
 * The pool's lookup-or-create and increment are the registry operations
 * `Fetched` and `AddCount`; the decoder is a parameter of the tracer.
 */
module InstructionCount {
  import opened Registry

  /** One buffer entry: the address of an executed instruction and its opcode. */
  datatype InsRef = InsRef(pc: Addr, opcode: int)

  /** The capacity of a thread's buffer, in entries. */
  const MAX_NUM_INS_REFS: nat := 8192

  /** The addresses that occur in `es`. */
  function PcSet(es: seq<InsRef>): set<Addr> {
    set j | 0 <= j < |es| :: es[j].pc
  }

  /** How many entries of `es` are for `a`. */
  function Hits(es: seq<InsRef>, a: Addr): nat
    decreases |es|
  {
    if es == [] then 0
    else
      var last := |es| - 1;
      Hits(es[..last], a) + (if es[last].pc == a then 1 else 0)
  }

  /** One step of the drain: look the entry's pc up with its decoded length,
      then count one execution. */
  function DrainOne(t: Table, e: InsRef, decode: Addr -> int): (r: Table)
    ensures r.Keys == t.Keys + {e.pc}
    ensures r[e.pc].execCount == Base(t, e.pc) + 1
    ensures e.pc !in t ==> r[e.pc] == Instr(e.pc, decode(e.pc), 1)
    ensures forall b :: b in t && b != e.pc ==> r[b] == t[b]
  {
    AddCount(Fetched(t, e.pc, decode(e.pc)), e.pc, 1)
  }

  /** The pool after draining the entries `es` in order. */
  function Drained(t: Table, es: seq<InsRef>, decode: Addr -> int): (r: Table)
    ensures r.Keys == t.Keys + PcSet(es)
    decreases |es|
  {
    if es == [] then t
    else
      var last := |es| - 1;
      assert PcSet(es) == PcSet(es[..last]) + {es[last].pc} by {
        assert forall j :: 0 <= j < last ==> es[..last][j] == es[j];
      }
      DrainOne(Drained(t, es[..last], decode), es[last], decode)
  }

  lemma DrainedUnfold(t: Table, es: seq<InsRef>, decode: Addr -> int)
    requires es != []
    ensures Drained(t, es, decode) == DrainOne(Drained(t, es[..|es| - 1], decode), es[|es| - 1], decode)
  {
  }

  /** The loop step of a drain over `es`: the first `p + 1` entries are the
      first `p` and then entry `p`. */
  lemma DrainedStep(t: Table, es: seq<InsRef>, p: nat, decode: Addr -> int)
    requires p < |es|
    ensures Drained(t, es[..p + 1], decode) == DrainOne(Drained(t, es[..p], decode), es[p], decode)
  {
    assert es[..p + 1][..p] == es[..p];
    DrainedUnfold(t, es[..p + 1], decode);
  }

  /** Every count is the count before plus the number of entries for that pc. */
  lemma {:induction false} DrainedCount(t: Table, es: seq<InsRef>, decode: Addr -> int, a: Addr)
    requires a in Drained(t, es, decode)
    ensures Drained(t, es, decode)[a].execCount == Base(t, a) + Hits(es, a)
    decreases |es|
  {
    if es != [] {
      var last := |es| - 1;
      var u := Drained(t, es[..last], decode);
      if a in u {
        DrainedCount(t, es[..last], decode, a);
      } else {
        HitsAbsent(t, es[..last], a);
      }
    }
  }

  lemma {:induction false} HitsAbsent(t: Table, es: seq<InsRef>, a: Addr)
    requires a !in t && a !in PcSet(es)
    ensures Base(t, a) + Hits(es, a) == 0
    decreases |es|
  {
    if es != [] {
      var last := |es| - 1;
      assert PcSet(es[..last]) <= PcSet(es) by {
        assert forall j :: 0 <= j < last ==> es[..last][j] == es[j];
      }
      HitsAbsent(t, es[..last], a);
    }
  }

  /** A record that was in the pool keeps its address and length; a record
      the drain creates is at its own pc with the decoder's length. */
  lemma {:induction false} DrainedRecord(t: Table, es: seq<InsRef>, decode: Addr -> int, a: Addr)
    requires a in Drained(t, es, decode)
    ensures a in t ==> (Drained(t, es, decode)[a].addr == t[a].addr
                        && Drained(t, es, decode)[a].size == t[a].size)
    ensures a !in t ==> (Drained(t, es, decode)[a].addr == a
                         && Drained(t, es, decode)[a].size == decode(a))
    decreases |es|
  {
    if es != [] {
      var last := |es| - 1;
      if a in Drained(t, es[..last], decode) {
        DrainedRecord(t, es[..last], decode, a);
      }
    }
  }

  /** Each entry adds exactly one to the sum of all counts. */
  lemma {:induction false} DrainedTotal(t: Table, es: seq<InsRef>, decode: Addr -> int)
    ensures Total(Drained(t, es, decode)) == Total(t) + |es|
    decreases |es|
  {
    if es != [] {
      var last := |es| - 1;
      var u := Drained(t, es[..last], decode);
      DrainedTotal(t, es[..last], decode);
      FetchedTotal(u, es[last].pc, decode(es[last].pc));
      AddCountTotal(Fetched(u, es[last].pc, decode(es[last].pc)), es[last].pc, 1);
    }
  }

  /** Draining in two batches is draining their concatenation: it does not
      matter where the clean calls cut the trace. */
  lemma {:induction false} DrainedConcat(t: Table, xs: seq<InsRef>, ys: seq<InsRef>, decode: Addr -> int)
    ensures Drained(Drained(t, xs, decode), ys, decode) == Drained(t, xs + ys, decode)
    decreases |ys|
  {
    if ys != [] {
      var last := |ys| - 1;
      var zs := xs + ys;
      assert zs[..|zs| - 1] == xs + ys[..last];
      assert zs[|zs| - 1] == ys[last];
      DrainedConcat(t, xs, ys[..last], decode);
      DrainedUnfold(t, zs, decode);
      DrainedUnfold(Drained(t, xs, decode), ys, decode);
    } else {
      assert xs + ys == xs;
    }
  }

  lemma {:induction false} DrainedWellKeyed(t: Table, es: seq<InsRef>, decode: Addr -> int)
    requires WellKeyed(t)
    ensures WellKeyed(Drained(t, es, decode))
    decreases |es|
  {
    if es != [] {
      DrainedWellKeyed(t, es[..|es| - 1], decode);
    }
  }

  lemma SplitFirst(w: seq<InsRef>, es: seq<InsRef>)
    requires es != []
    ensures w + [es[0]] + es[1..] == w + es
  {
    assert [es[0]] + es[1..] == es;
  }

  lemma Regroup(xs: seq<InsRef>, ys: seq<InsRef>, zs: seq<InsRef>)
    ensures xs + (ys + zs) == xs + ys + zs
  {
  }

  /** The per-thread data: the buffer, the TLS buffer pointer (as an index
      into the buffer) and the thread's count of processed entries. */
  class ThreadData {
    const buf: array<InsRef>
    var bufPtr: nat
    var numRefs: nat
    /** Every entry the thread has written, in order. */
    ghost var written: seq<InsRef>

    /** The entries before `numRefs` have been drained; the rest are the
        buffer's live prefix. */
    ghost predicate Valid()
      reads this, buf
    {
      && buf.Length == MAX_NUM_INS_REFS
      && bufPtr <= buf.Length
      && |written| == numRefs + bufPtr
      && written[numRefs..] == buf[..bufPtr]
    }

    /** The entries written since the last drain. */
    ghost function Pending(): seq<InsRef>
      reads this, buf
      requires bufPtr <= buf.Length
    {
      buf[..bufPtr]
    }

    /** The thread-init event: a fresh buffer, the pointer at its base and a
        zero count. */
    constructor ()
      ensures Valid() && fresh(buf)
      ensures bufPtr == 0 && numRefs == 0 && written == []
    {
      buf := new InsRef[MAX_NUM_INS_REFS](_ => InsRef(0, 0));
      bufPtr := 0;
      numRefs := 0;
      written := [];
    }

    /** The inline code inserted before each instruction: store the pc and
        the opcode at the buffer pointer, then advance it by one entry.  The
        buffer must have room, which the client counts on rather than checks. */
    method Append(pc: Addr, opcode: int)
      requires Valid() && bufPtr < MAX_NUM_INS_REFS
      modifies this, buf
      ensures Valid() && numRefs == old(numRefs)
      ensures bufPtr == old(bufPtr) + 1
      ensures Pending() == old(Pending()) + [InsRef(pc, opcode)]
      ensures written == old(written) + [InsRef(pc, opcode)]
    {
      buf[bufPtr] := InsRef(pc, opcode);
      written := written + [InsRef(pc, opcode)];
      bufPtr := bufPtr + 1;
    }

    /** The inline code of several instructions in a row, with no clean
        call among them: their entries are appended in order. */
    method AppendAll(es: seq<InsRef>)
      requires Valid() && bufPtr + |es| <= MAX_NUM_INS_REFS
      modifies this, buf
      ensures Valid() && numRefs == old(numRefs)
      ensures bufPtr == old(bufPtr) + |es|
      ensures Pending() == old(Pending()) + es
      ensures written == old(written) + es
    {
      var i := 0;
      while i < |es|
        invariant 0 <= i <= |es|
        invariant Valid() && numRefs == old(numRefs)
        invariant bufPtr == old(bufPtr) + i
        invariant Pending() == old(Pending()) + es[..i]
        invariant written == old(written) + es[..i]
      {
        Append(es[i].pc, es[i].opcode);
        assert es[..i + 1] == es[..i] + [es[i]];
        i := i + 1;
      }
      assert es[..i] == es;
    }

    /** One more entry processed by this thread. */
    method CountRef()
      modifies this
      ensures numRefs == old(numRefs) + 1
      ensures bufPtr == old(bufPtr) && written == old(written)
    {
      numRefs := numRefs + 1;
    }
  }

  /** The tracer's global state: the pool and the global count of entries
      from threads that have exited. */
  class Tracer {
    var pool: Table
    var numRefs: nat
    /** `decode_sizeof`: the length of the instruction at an address. */
    const decode: Addr -> int
    /** Every entry drained so far, in drain order. */
    ghost var drained: seq<InsRef>

    /** The pool is exactly what draining every processed entry in order
        into an empty pool gives. */
    ghost predicate Valid()
      reads this
    {
      WellKeyed(pool) && pool == Drained(map[], drained, decode)
    }

    /** Client start: an empty pool and a zero global count. */
    constructor (decode: Addr -> int)
      ensures Valid() && pool == map[] && numRefs == 0 && drained == []
      ensures this.decode == decode
    {
      pool := map[];
      numRefs := 0;
      this.decode := decode;
      drained := [];
    }

    /** Lookup-or-create in the pool. */
    method GetInstr(pc: Addr, size: int) returns (r: Instr)
      requires WellKeyed(pool)
      modifies this
      ensures numRefs == old(numRefs) && drained == old(drained)
      ensures pool == Fetched(old(pool), pc, size) && r == pool[pc] && r.addr == pc
    {
      if pc !in pool {
        pool := pool[pc := Instr(pc, size, 0)];
      }
      r := pool[pc];
    }

    /** Adds `d` to the count of the record `r` stands for. */
    method InstrInc(r: Instr, d: nat)
      requires r.addr in pool
      modifies this
      ensures numRefs == old(numRefs) && drained == old(drained)
      ensures pool == AddCount(old(pool), r.addr, d)
    {
      pool := pool[r.addr := pool[r.addr].(execCount := pool[r.addr].execCount + d)];
    }

    /** One entry of the drain: the pc is looked up with the length the
        decoder gives for it, and its record counts one more execution. */
    method DrainEntry(e: InsRef)
      requires WellKeyed(pool)
      modifies this
      ensures numRefs == old(numRefs) && drained == old(drained)
      ensures WellKeyed(pool) && pool == DrainOne(old(pool), e, decode)
    {
      var ins_size := decode(e.pc);
      var r := GetInstr(e.pc, ins_size);
      InstrInc(r, 1);
    }

    /** The loop of the drain: each entry from the base of the buffer up to
        the buffer pointer is drained, and the thread's count goes up by one
        per entry. */
    method DrainLoop(data: ThreadData)
      requires WellKeyed(pool) && data.bufPtr <= data.buf.Length
      modifies this, data
      ensures WellKeyed(pool) && numRefs == old(numRefs) && drained == old(drained)
      ensures pool == Drained(old(pool), old(data.buf[..data.bufPtr]), decode)
      ensures data.bufPtr == old(data.bufPtr) && data.written == old(data.written)
      ensures data.numRefs == old(data.numRefs) + old(data.bufPtr)
    {
      var bufPtr := data.bufPtr;
      ghost var es := data.buf[..bufPtr];
      var p := 0;
      while p < bufPtr
        invariant 0 <= p <= bufPtr
        invariant numRefs == old(numRefs) && drained == old(drained)
        invariant data.bufPtr == bufPtr && data.written == old(data.written)
        invariant data.numRefs == old(data.numRefs) + p
        invariant WellKeyed(pool) && pool == Drained(old(pool), es[..p], decode)
      {
        var e := data.buf[p];
        DrainedStep(old(pool), es, p, decode);
        DrainEntry(e);
        data.CountRef();
        p := p + 1;
      }
      assert es[..p] == es;
    }

    /** Drains the thread's buffer from its base up to the buffer pointer,
        then resets the pointer to the base. */
    method Instrace(data: ThreadData)
      requires Valid() && data.Valid()
      modifies this, data
      ensures Valid() && data.Valid() && numRefs == old(numRefs)
      ensures pool == Drained(old(pool), old(data.Pending()), decode)
      ensures drained == old(drained) + old(data.Pending())
      ensures data.bufPtr == 0 && data.written == old(data.written)
      ensures data.numRefs == old(data.numRefs) + old(data.bufPtr)
    {
      ghost var es := data.Pending();
      DrainLoop(data);
      data.bufPtr := 0;
      DrainedConcat(map[], drained, es, decode);
      drained := drained + es;
    }

    /** One execution of an instrumented basic block by a thread.  The clean
        call is placed after the code that writes the entry of the first
        instruction, so that entry is written, the buffer is drained, and
        then the entries of the other instructions are written.  A block of
        at most `MAX_NUM_INS_REFS` instructions therefore leaves room for
        the first entry of the next block: the buffer never overflows. */
    method RunBlock(data: ThreadData, block: seq<InsRef>)
      requires Valid() && data.Valid()
      requires 0 < |block| <= MAX_NUM_INS_REFS && data.bufPtr < MAX_NUM_INS_REFS
      modifies this, data, data.buf
      ensures Valid() && data.Valid() && numRefs == old(numRefs)
      ensures pool == Drained(old(pool), old(data.Pending()) + [block[0]], decode)
      ensures drained == old(drained) + old(data.Pending()) + [block[0]]
      ensures data.Pending() == block[1..] && data.bufPtr < MAX_NUM_INS_REFS
      ensures data.written == old(data.written) + block
    {
      ghost var pending, written, before := data.Pending(), data.written, drained;
      data.Append(block[0].pc, block[0].opcode);
      ghost var batch := data.Pending();
      assert batch == pending + [block[0]];
      Instrace(data);
      assert drained == before + batch;
      ghost var written1 := data.written;
      assert written1 == written + [block[0]];
      data.AppendAll(block[1..]);
      assert data.written == written1 + block[1..];
      SplitFirst(written, block);
      Regroup(before, pending, [block[0]]);
    }

    /** The thread-exit event: drain what is left, then add the thread's
        count to the global count. */
    method ThreadExit(data: ThreadData)
      requires Valid() && data.Valid()
      modifies this, data
      ensures Valid()
      ensures pool == Drained(old(pool), old(data.Pending()), decode)
      ensures drained == old(drained) + old(data.Pending())
      ensures data.written == old(data.written)
      ensures data.numRefs == |data.written| && data.bufPtr == 0
      ensures numRefs == old(numRefs) + old(data.numRefs) + old(data.bufPtr)
      ensures numRefs == old(numRefs) + |data.written|
    {
      Instrace(data);
      numRefs := numRefs + data.numRefs;
    }
  }

  /** What the pool says, given the invariant: every drained pc has a record
      at its own address with the decoder's length, its count is the number
      of drained entries for it, and the counts add up to the number of
      drained entries. */
  lemma PoolCounts(drained: seq<InsRef>, decode: Addr -> int, a: Addr)
    ensures a in Drained(map[], drained, decode) <==> a in PcSet(drained)
    ensures a in Drained(map[], drained, decode) ==>
              Drained(map[], drained, decode)[a] == Instr(a, decode(a), Hits(drained, a))
    ensures Total(Drained(map[], drained, decode)) == |drained|
  {
    DrainedTotal(map[], drained, decode);
    if a in Drained(map[], drained, decode) {
      DrainedCount(map[], drained, decode, a);
      DrainedRecord(map[], drained, decode, a);
    }
  }
}

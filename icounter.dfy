/**
 * The icounter client (groups kept as a linked list, newest first).
 *
 * A `Profiler` holds the two pieces of global state of the client: the table
 * of unique instructions and the list of instruction groups.  A group object
 * is shared between the list and the code that bumps its counter, so it is a
 * class of its own; its member list is a fixed-size buffer of references to
 * table records, held here as the records' addresses (the table is keyed by
 * address and never loses a record, so an address names its record for good).
 */
module ICounter {
  import opened Registry
  import opened Groups
  import opened Snapshot

  class InstrGroup {
    /** How many times the block ran. */
    var execCount: nat
    /** The block's instructions, in order, as addresses of table records. */
    const members: array<Addr>

    /** The group constructor: a zero counter and `size` unset slots. */
    constructor (size: nat)
      requires size > 0
      ensures execCount == 0 && members.Length == size && fresh(members)
    {
      execCount := 0;
      members := new Addr[size];
    }

    /** The inline counter bump run on every execution of the block. */
    method Execute()
      modifies this
      ensures execCount == old(execCount) + 1
    {
      execCount := execCount + 1;
    }
  }

  /** The groups read as values, in list order. */
  ghost function GroupValues(gs: seq<InstrGroup>): (vs: seq<GroupVal>)
    reads set g | g in gs
    reads set g | g in gs :: g.members
    ensures |vs| == |gs|
    ensures forall i :: 0 <= i < |gs| ==> vs[i] == GroupVal(gs[i].execCount, gs[i].members[..])
    decreases |gs|
  {
    if gs == [] then []
    else
      var last := |gs| - 1;
      GroupValues(gs[..last]) + [GroupVal(gs[last].execCount, gs[last].members[..])]
  }

  /** Pushing a covered group onto covered groups, over a table that only
      gained keys, leaves all of them covered. */
  lemma CoveredAfterPush(t0: Table, t: Table, gs: seq<GroupVal>, g: GroupVal)
    requires AllCovered(t0, gs) && t0.Keys <= t.Keys && Covers(t, g.members)
    ensures AllCovered(t, [g] + gs)
  {
    forall i | 0 <= i < |[g] + gs|
      ensures Covers(t, ([g] + gs)[i].members)
    {
      if i > 0 {
        assert ([g] + gs)[i] == gs[i - 1];
      }
    }
  }

  /** Coverage depends only on the table's keys. */
  lemma CoveredSameKeys(t0: Table, t: Table, gs: seq<GroupVal>)
    requires AllCovered(t0, gs) && t0.Keys == t.Keys
    ensures AllCovered(t, gs)
  {
  }

  lemma GroupValuesPush(g: InstrGroup, gs: seq<InstrGroup>)
    ensures GroupValues([g] + gs) == [GroupVal(g.execCount, g.members[..])] + GroupValues(gs)
  {
    var l := GroupValues([g] + gs);
    var r := [GroupVal(g.execCount, g.members[..])] + GroupValues(gs);
    assert forall i :: 0 < i < |l| ==> ([g] + gs)[i] == gs[i - 1];
    assert forall i :: 0 <= i < |l| ==> l[i] == r[i];
  }

  /** After a block is fetched, every one of its addresses has a record. */
  lemma BlockCovered(t: Table, block: seq<(Addr, int)>, members: seq<Addr>)
    requires |members| == |block|
    requires forall k :: 0 <= k < |block| ==> members[k] == block[k].0
    ensures Covers(FetchAll(t, block), members)
  {
    forall k | 0 <= k < |members|
      ensures members[k] in FetchAll(t, block)
    {
      assert block[k].0 in SiteAddrs(block);
    }
  }

  class Profiler {
    /** The unique-instruction table. */
    var instrs: Table
    /** The group list, head first. */
    var groups: seq<InstrGroup>
    /** Whether an output file was named. */
    const hasOutFile: bool

    ghost predicate Valid()
      reads this
    {
      WellKeyed(instrs)
    }

    /** Every member slot of every group names a record of the table. */
    ghost predicate Registered()
      reads this, set g | g in groups, set g | g in groups :: g.members
    {
      AllCovered(instrs, GroupValues(groups))
    }

    /** Client start: an empty table and an empty group list. */
    constructor (hasOutFile: bool)
      ensures Valid() && Registered()
      ensures instrs == map[] && groups == [] && this.hasOutFile == hasOutFile
    {
      instrs := map[];
      groups := [];
      this.hasOutFile := hasOutFile;
    }

    /** Lookup-or-create.  A repeat lookup with another length is an assertion
        failure in the client, so it is excluded here. */
    method FetchInstr(addr: Addr, size: int) returns (r: Instr)
      requires Valid() && Compatible(instrs, addr, size)
      modifies this
      ensures Valid() && groups == old(groups)
      ensures instrs == Fetched(old(instrs), addr, size)
      ensures r == instrs[addr] && r.addr == addr && r.size == size
      ensures addr in old(instrs) ==> r == old(instrs)[addr]
      ensures addr !in old(instrs) ==> r.execCount == 0
    {
      if addr in instrs {
        r := instrs[addr];
      } else {
        r := Instr(addr, size, 0);
        instrs := instrs[addr := r];
      }
    }

    /** A new group of `size` slots with a zero counter, pushed on the list. */
    method NewGroup(size: nat) returns (g: InstrGroup)
      requires size > 0
      modifies this
      ensures fresh(g) && fresh(g.members)
      ensures g.execCount == 0 && g.members.Length == size
      ensures groups == [g] + old(groups) && instrs == old(instrs)
    {
      g := new InstrGroup(size);
      groups := [g] + groups;
    }

    /** Adds `d` to the count of the record at `addr`. */
    method AddExecCount(addr: Addr, d: nat)
      requires Valid() && addr in instrs
      modifies this
      ensures Valid() && groups == old(groups)
      ensures instrs == AddCount(old(instrs), addr, d)
    {
      instrs := instrs[addr := instrs[addr].(execCount := instrs[addr].execCount + d)];
    }

    /** The first-instruction branch of the block event: one new group for
        the block, and each instruction fetched into the next slot. */
    method RegisterBlock(block: seq<(Addr, int)>) returns (g: InstrGroup)
      requires Valid() && Registered()
      requires |block| > 0 && SitesAgree(instrs, block)
      modifies this
      ensures Valid() && Registered()
      ensures fresh(g) && fresh(g.members) && g.execCount == 0
      ensures groups == [g] + old(groups)
      ensures g.members.Length == |block|
      ensures forall k :: 0 <= k < |block| ==> g.members[k] == block[k].0
      ensures instrs == FetchAll(old(instrs), block)
    {
      ghost var before := GroupValues(groups);
      g := NewGroup(|block|);
      FillGroup(g, block);
      BlockCovered(old(instrs), block, g.members[..]);
      assert GroupValues(old(groups)) == before;
      GroupValuesPush(g, old(groups));
      CoveredAfterPush(old(instrs), instrs, before, GroupVal(g.execCount, g.members[..]));
    }

    /** The loop over the block's instructions: slot `index` gets the record
        of instruction `index`.  It ends with every slot filled, which is the
        closing size assertion. */
    method FillGroup(g: InstrGroup, block: seq<(Addr, int)>)
      requires Valid() && SitesAgree(instrs, block)
      requires g.members.Length == |block|
      modifies this, g.members
      ensures Valid() && groups == old(groups)
      ensures forall k :: 0 <= k < |block| ==> g.members[k] == block[k].0
      ensures instrs == FetchAll(old(instrs), block)
    {
      var index := 0;
      while index < |block|
        invariant 0 <= index <= |block|
        invariant Valid() && groups == old(groups)
        invariant forall k :: 0 <= k < index ==> g.members[k] == block[k].0
        invariant instrs == FetchAll(old(instrs), block[..index])
      {
        FetchAllStep(old(instrs), block, index);
        FillSlot(g, index, block[index]);
        index := index + 1;
      }
      assert block[..index] == block;
    }

    /** One step of the block loop: the instruction is fetched and slot
        `index` of the group is set to its record. */
    method FillSlot(g: InstrGroup, index: nat, site: (Addr, int))
      requires Valid() && Compatible(instrs, site.0, site.1)
      requires index < g.members.Length
      modifies this, g.members
      ensures Valid() && groups == old(groups)
      ensures instrs == Fetched(old(instrs), site.0, site.1)
      ensures g.members[index] == site.0
      ensures forall k :: 0 <= k < g.members.Length && k != index ==> g.members[k] == old(g.members[k])
    {
      var r := FetchInstr(site.0, site.1);
      g.members[index] := r.addr;
    }

    /** The inner loop of the flush: adds the counter of `g` to each of its
        members in slot order. */
    method FlushGroup(g: InstrGroup)
      requires Valid() && Covers(instrs, g.members[..])
      modifies this
      ensures Valid() && groups == old(groups)
      ensures instrs == FlushMembers(old(instrs), g.members[..], g.execCount)
    {
      var index2 := 0;
      while index2 < g.members.Length
        invariant 0 <= index2 <= g.members.Length
        invariant groups == old(groups)
        invariant Valid() && instrs == FlushMembers(old(instrs), g.members[..index2], g.execCount)
      {
        assert g.members[..index2 + 1][..index2] == g.members[..index2];
        AddExecCount(g.members[index2], g.execCount);
        index2 := index2 + 1;
      }
      assert g.members[..g.members.Length] == g.members[..];
    }

    /** Adds each group's counter to every one of its members, walking the
        list from the head. */
    method FlushGroups()
      requires Valid() && Registered()
      modifies this
      ensures Valid() && Registered() && groups == old(groups)
      ensures GroupValues(groups) == old(GroupValues(groups))
      ensures instrs == FlushAll(old(instrs), old(GroupValues(groups)))
    {
      ghost var vs := GroupValues(groups);
      assert AllCovered(old(instrs), vs);
      var i := 0;
      while i < |groups|
        invariant 0 <= i <= |groups| && groups == old(groups)
        invariant Valid() && AllCovered(old(instrs), vs[..i])
        invariant instrs == FlushAll(old(instrs), vs[..i])
        decreases |groups| - i
      {
        assert vs[i] == old(GroupVal(groups[i].execCount, groups[i].members[..]));
        FlushAllStep(old(instrs), vs, i);
        FlushGroup(groups[i]);
        i := i + 1;
      }
      assert vs[..|groups|] == vs;
      assert GroupValues(groups) == vs;
      CoveredSameKeys(old(instrs), instrs, vs);
    }

    /** Loads a snapshot: `None` is a file that cannot be opened and changes
        nothing; otherwise every line is fetched and its count added. */
    method ReadInstrs(file: Option<seq<string>>)
      requires Valid()
      requires file.Some? ==> Readable(instrs, file.value)
      modifies this
      ensures Valid() && groups == old(groups)
      ensures file.None? ==> instrs == old(instrs)
      ensures file.Some? ==> instrs == Merge(old(instrs), ParseAll(file.value))
      ensures old(instrs).Keys <= instrs.Keys
    {
      if file.Some? {
        var lines := file.value;
        ghost var rs := ParseAll(lines);
        var i := 0;
        while i < |lines|
          invariant 0 <= i <= |lines|
          invariant Valid() && groups == old(groups)
          invariant instrs == Merge(old(instrs), rs[..i])
        {
          var rec := ParseLine(lines[i]).value;
          assert rec == rs[i];
          MergeStep(old(instrs), rs, i);
          var r := FetchInstr(rec.addr, rec.size);
          AddExecCount(r.addr, rec.execCount);
          i := i + 1;
        }
        assert rs[..|lines|] == rs;
      }
    }

    /** The exit event: flush the groups, then write one line per record when
        an output file is open. */
    method EventExit() returns (dump: Option<set<string>>)
      requires Valid() && Registered()
      modifies this
      ensures Valid() && Registered() && groups == old(groups)
      ensures GroupValues(groups) == old(GroupValues(groups))
      ensures instrs == FlushAll(old(instrs), old(GroupValues(groups)))
      ensures hasOutFile ==> dump == Some(DumpLines(instrs))
      ensures !hasOutFile ==> dump == None
    {
      FlushGroups();
      if hasOutFile {
        dump := Some(DumpLines(instrs));
      } else {
        dump := None;
      }
    }
  }

  /** Client start: an empty table and group list, then the snapshot named
      on the command line is merged in (`None`: no snapshot was named, or it
      cannot be opened), then the output file is opened when one is named. */
  method ClientMain(snapshot: Option<seq<string>>, hasOutFile: bool) returns (p: Profiler)
    requires snapshot.Some? ==> Readable(map[], snapshot.value)
    ensures fresh(p) && p.Valid() && p.Registered()
    ensures p.groups == [] && p.hasOutFile == hasOutFile
    ensures snapshot.None? ==> p.instrs == map[]
    ensures snapshot.Some? ==> p.instrs == Merge(map[], ParseAll(snapshot.value))
  {
    p := new Profiler(hasOutFile);
    p.ReadInstrs(snapshot);
  }
}

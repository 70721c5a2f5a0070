/**
 * Instruction groups and the group flush.  A group stands for one basic
 * block: its members are the block's instructions in order, and one counter
 * is bumped on every execution of the block.  Flushing adds every group's
 * counter to the execution count of every one of its members.
 *
 * `GroupVal` is the value of a group at one moment; the mutable group object
 * of the icounter client is read into this form to state what the flush does.
 */
module Groups {
  import opened Registry

  datatype GroupVal = GroupVal(execCount: nat, members: seq<Addr>)

  /** Every member address has a record in the table. */
  predicate Covers(t: Table, members: seq<Addr>) {
    forall k :: 0 <= k < |members| ==> members[k] in t
  }

  predicate AllCovered(t: Table, gs: seq<GroupVal>) {
    forall i :: 0 <= i < |gs| ==> Covers(t, gs[i].members)
  }

  /** Adds `c` to each member in turn: the inner `for` loop of the flush. */
  function FlushMembers(t: Table, members: seq<Addr>, c: nat): (r: Table)
    requires Covers(t, members)
    ensures r.Keys == t.Keys
    decreases |members|
  {
    if members == [] then t
    else
      var last := |members| - 1;
      AddCount(FlushMembers(t, members[..last], c), members[last], c)
  }

  /** Flushes the groups in list order: the outer `while` loop of the flush. */
  function FlushAll(t: Table, gs: seq<GroupVal>): (r: Table)
    requires AllCovered(t, gs)
    ensures r.Keys == t.Keys
    decreases |gs|
  {
    if gs == [] then t
    else
      var last := |gs| - 1;
      var u := FlushAll(t, gs[..last]);
      FlushMembers(u, gs[last].members, gs[last].execCount)
  }

  /** The loop step of the flush: after the first `i` groups, group `i` is
      still covered, and flushing it extends the fold by one group. */
  lemma FlushAllStep(t: Table, gs: seq<GroupVal>, i: nat)
    requires AllCovered(t, gs) && i < |gs|
    ensures AllCovered(t, gs[..i]) && AllCovered(t, gs[..i + 1])
    ensures Covers(FlushAll(t, gs[..i]), gs[i].members)
    ensures FlushAll(t, gs[..i + 1])
         == FlushMembers(FlushAll(t, gs[..i]), gs[i].members, gs[i].execCount)
  {
    assert forall k :: 0 <= k < i + 1 ==> gs[..i + 1][k] == gs[k];
    assert gs[..i + 1][..i] == gs[..i];
  }

  /** How many times `a` occurs in `members`. */
  function Occurrences(members: seq<Addr>, a: Addr): nat
    decreases |members|
  {
    if members == [] then 0
    else
      var last := |members| - 1;
      Occurrences(members[..last], a) + (if members[last] == a then 1 else 0)
  }

  /** What one flush of `gs` adds to the count of `a`: each group's counter,
      once per occurrence of `a` among its members. */
  function Gain(gs: seq<GroupVal>, a: Addr): nat
    decreases |gs|
  {
    if gs == [] then 0
    else
      var last := |gs| - 1;
      Gain(gs[..last], a) + gs[last].execCount * Occurrences(gs[last].members, a)
  }

  /** The sum of the counters of the groups that have `a` as a member. */
  function CounterSum(gs: seq<GroupVal>, a: Addr): nat
    decreases |gs|
  {
    if gs == [] then 0
    else
      var last := |gs| - 1;
      CounterSum(gs[..last], a) + (if a in gs[last].members then gs[last].execCount else 0)
  }

  lemma {:induction false} FlushMembersEffect(t: Table, members: seq<Addr>, c: nat, a: Addr)
    requires Covers(t, members) && a in t
    ensures FlushMembers(t, members, c)[a]
         == t[a].(execCount := t[a].execCount + c * Occurrences(members, a))
    decreases |members|
  {
    if members != [] {
      var last := |members| - 1;
      FlushMembersEffect(t, members[..last], c, a);
      var n := Occurrences(members[..last], a);
      if members[last] == a {
        MulSucc(c, n);
      }
    }
  }

  /** The flush adds `Gain(gs, a)` to every record and changes nothing else:
      not the keys, not the addresses, not the sizes. */
  lemma {:induction false} FlushAllEffect(t: Table, gs: seq<GroupVal>, a: Addr)
    requires AllCovered(t, gs) && a in t
    ensures FlushAll(t, gs)[a] == t[a].(execCount := t[a].execCount + Gain(gs, a))
    decreases |gs|
  {
    if gs != [] {
      var last := |gs| - 1;
      assert AllCovered(t, gs[..last]);
      FlushAllEffect(t, gs[..last], a);
      var u := FlushAll(t, gs[..last]);
      FlushMembersEffect(u, gs[last].members, gs[last].execCount, a);
    }
  }

  lemma {:induction false} OccurrencesZero(members: seq<Addr>, a: Addr)
    requires a !in members
    ensures Occurrences(members, a) == 0
    decreases |members|
  {
    if members != [] {
      OccurrencesZero(members[..|members| - 1], a);
    }
  }

  lemma {:induction false} OccurrencesOne(members: seq<Addr>, a: Addr)
    requires a in members
    requires forall i, j :: 0 <= i < j < |members| ==> members[i] != members[j]
    ensures Occurrences(members, a) == 1
    decreases |members|
  {
    var last := |members| - 1;
    if members[last] == a {
      OccurrencesZero(members[..last], a);
    } else {
      OccurrencesOne(members[..last], a);
    }
  }

  /** An instruction that is a member of no group is not changed by a flush. */
  lemma {:induction false} FlushSkipsNonMembers(t: Table, gs: seq<GroupVal>, a: Addr)
    requires AllCovered(t, gs) && a in t
    requires forall i :: 0 <= i < |gs| ==> a !in gs[i].members
    ensures FlushAll(t, gs)[a] == t[a]
  {
    GainZero(gs, a);
    FlushAllEffect(t, gs, a);
  }

  lemma {:induction false} GainZero(gs: seq<GroupVal>, a: Addr)
    requires forall i :: 0 <= i < |gs| ==> a !in gs[i].members
    ensures Gain(gs, a) == 0
    decreases |gs|
  {
    if gs != [] {
      var last := |gs| - 1;
      GainZero(gs[..last], a);
      OccurrencesZero(gs[last].members, a);
    }
  }

  /** When no group lists an instruction twice (as in a basic block), the
      flush adds to it exactly the sum of the counters of its groups. */
  lemma {:induction false} GainOfDistinctMembers(gs: seq<GroupVal>, a: Addr)
    requires forall g, i, j :: g in gs && 0 <= i < j < |g.members| ==> g.members[i] != g.members[j]
    ensures Gain(gs, a) == CounterSum(gs, a)
    decreases |gs|
  {
    if gs != [] {
      var last := |gs| - 1;
      assert forall g :: g in gs[..last] ==> g in gs;
      GainOfDistinctMembers(gs[..last], a);
      var g := gs[last];
      if a in g.members {
        OccurrencesOne(g.members, a);
      } else {
        OccurrencesZero(g.members, a);
      }
    }
  }

  /** Counters are not reset by a flush, so a second flush adds the same
      amounts again: twice the gain in all. */
  lemma FlushTwice(t: Table, gs: seq<GroupVal>, a: Addr)
    requires AllCovered(t, gs) && a in t
    ensures AllCovered(FlushAll(t, gs), gs)
    ensures FlushAll(FlushAll(t, gs), gs)[a].execCount == t[a].execCount + 2 * Gain(gs, a)
  {
    var u := FlushAll(t, gs);
    FlushAllEffect(t, gs, a);
    FlushAllEffect(u, gs, a);
  }

  /** A flush raises the sum of all counts by each group's counter times its
      number of members. */
  lemma {:induction false} FlushAllTotal(t: Table, gs: seq<GroupVal>)
    requires AllCovered(t, gs)
    ensures Total(FlushAll(t, gs)) == Total(t) + Weight(gs)
    decreases |gs|
  {
    if gs != [] {
      var last := |gs| - 1;
      assert AllCovered(t, gs[..last]);
      FlushAllTotal(t, gs[..last]);
      FlushMembersTotal(FlushAll(t, gs[..last]), gs[last].members, gs[last].execCount);
    }
  }

  lemma {:induction false} FlushMembersTotal(t: Table, members: seq<Addr>, c: nat)
    requires Covers(t, members)
    ensures Total(FlushMembers(t, members, c)) == Total(t) + c * |members|
    decreases |members|
  {
    if members != [] {
      var last := |members| - 1;
      var u := FlushMembers(t, members[..last], c);
      FlushMembersTotal(t, members[..last], c);
      assert Total(u) == Total(t) + c * last;
      AddCountTotal(u, members[last], c);
      assert FlushMembers(t, members, c) == AddCount(u, members[last], c);
      MulSucc(c, last);
    }
  }

  /** The sum over the groups of counter times number of members. */
  function Weight(gs: seq<GroupVal>): nat
    decreases |gs|
  {
    if gs == [] then 0
    else
      var last := |gs| - 1;
      Weight(gs[..last]) + gs[last].execCount * |gs[last].members|
  }

  lemma MulSucc(c: nat, n: nat)
    ensures c * (n + 1) == c * n + c
  {
  }
}

/**
 * The unique-instruction registry: a table from instruction address to its
 * record `{addr, size, exec_count}`.  This module holds the pure operations
 * on the table that both profiler clients use: lookup-or-create
 * (`fetch_instr`, and `get_instr` of the instruction-trace client) and
 * "add delta to the execution count" (`instr->exec_count += d`, `instr_inc`).
 */
module Registry {

  /** An application program counter. */
  type Addr = nat

  /** One unique instruction: its address, its decoded length in bytes and
      the number of times it was executed. */
  datatype Instr = Instr(addr: Addr, size: int, execCount: nat)

  /** The registry table, keyed by address. */
  type Table = map<Addr, Instr>

  /** Every record is stored under its own address. */
  ghost predicate WellKeyed(t: Table) {
    forall a :: a in t ==> t[a].addr == a
  }

  /** Looking up `a` with length `size` does not trip the size assertion:
      either `a` is new or it was recorded with the same length. */
  predicate Compatible(t: Table, a: Addr, size: int) {
    a in t ==> t[a].size == size
  }

  /** The execution count recorded for `a`, 0 when there is no record. */
  function Base(t: Table, a: Addr): nat {
    if a in t then t[a].execCount else 0
  }

  /** Lookup-or-create: the table after looking up `(a, size)`.  An existing
      record is returned as it is; the size check made on it is a
      precondition of the profiler's fetch, not part of the table change. */
  function Fetched(t: Table, a: Addr, size: int): (r: Table)
    ensures r.Keys == t.Keys + {a}
    ensures a in t ==> r == t
    ensures a !in t ==> r[a] == Instr(a, size, 0)
    ensures forall b :: b in t ==> r[b] == t[b]
    ensures Compatible(t, a, size) ==> r[a].size == size
    ensures WellKeyed(t) ==> WellKeyed(r)
  {
    if a in t then t else t[a := Instr(a, size, 0)]
  }

  /** The table after adding `d` to the execution count of the record at `a`. */
  function AddCount(t: Table, a: Addr, d: nat): (r: Table)
    requires a in t
    ensures r.Keys == t.Keys
    ensures r[a].addr == t[a].addr && r[a].size == t[a].size
    ensures r[a].execCount == t[a].execCount + d
    ensures forall b :: b in t && b != a ==> r[b] == t[b]
    ensures WellKeyed(t) ==> WellKeyed(r)
  {
    t[a := t[a].(execCount := t[a].execCount + d)]
  }

  /** A second lookup of the same `(a, size)` finds what the first created
      and passes the size check. */
  lemma FetchIdempotent(t: Table, a: Addr, size: int)
    requires Compatible(t, a, size)
    ensures Compatible(Fetched(t, a, size), a, size)
    ensures Fetched(Fetched(t, a, size), a, size) == Fetched(t, a, size)
  {
  }

  /** The sites of one basic block (address and length, in order) agree on
      their lengths with each other and with the table, so fetching them in
      turn never trips the size assertion. */
  predicate SitesAgree(t: Table, sites: seq<(Addr, int)>) {
    (forall k :: 0 <= k < |sites| ==> Compatible(t, sites[k].0, sites[k].1))
    && (forall j, k :: 0 <= j < k < |sites| && sites[j].0 == sites[k].0 ==> sites[j].1 == sites[k].1)
  }

  /** The addresses of a block's sites. */
  function SiteAddrs(sites: seq<(Addr, int)>): set<Addr> {
    set k | 0 <= k < |sites| :: sites[k].0
  }

  /** Fetches every site of a block, first to last.  `SitesAgree` is what
      makes each step pass the size check (`FetchAllStep`). */
  function FetchAll(t: Table, sites: seq<(Addr, int)>): (r: Table)
    ensures r.Keys == t.Keys + SiteAddrs(sites)
    ensures forall k :: 0 <= k < |sites| ==> sites[k].0 in r
    decreases |sites|
  {
    if sites == [] then t
    else
      var last := |sites| - 1;
      assert SiteAddrs(sites) == SiteAddrs(sites[..last]) + {sites[last].0} by {
        assert forall j :: 0 <= j < last ==> sites[..last][j] == sites[j];
      }
      Fetched(FetchAll(t, sites[..last]), sites[last].0, sites[last].1)
  }

  lemma SitesAgreePrefix(t: Table, sites: seq<(Addr, int)>, n: nat)
    requires SitesAgree(t, sites) && n <= |sites|
    ensures SitesAgree(t, sites[..n])
  {
    assert forall k :: 0 <= k < n ==> sites[..n][k] == sites[k];
  }

  /** Records that were in the table before are left untouched. */
  lemma {:induction false} FetchAllKeeps(t: Table, sites: seq<(Addr, int)>, a: Addr)
    requires a in t
    ensures FetchAll(t, sites)[a] == t[a]
    decreases |sites|
  {
    if sites != [] {
      FetchAllKeeps(t, sites[..|sites| - 1], a);
    }
  }

  /** After the block, every site's record has that site's length. */
  lemma {:induction false} FetchAllSizes(t: Table, sites: seq<(Addr, int)>)
    requires SitesAgree(t, sites)
    ensures forall k :: 0 <= k < |sites| ==> FetchAll(t, sites)[sites[k].0].size == sites[k].1
    decreases |sites|
  {
    if sites != [] {
      SitesAgreePrefix(t, sites, |sites| - 1);
      FetchAllSizes(t, sites[..|sites| - 1]);
      FetchAllSizeLater(t, sites);
      FetchAllSizeLast(t, sites);
    }
  }

  /** The last site of a block: either it is new, or it was there before
      with the same length (from the table or from an earlier site). */
  lemma FetchAllSizeLast(t: Table, sites: seq<(Addr, int)>)
    requires SitesAgree(t, sites) && sites != []
    requires var init := sites[..|sites| - 1];
      forall j :: 0 <= j < |init| ==> FetchAll(t, init)[init[j].0].size == init[j].1
    ensures FetchAll(t, sites)[sites[|sites| - 1].0].size == sites[|sites| - 1].1
  {
    var last := |sites| - 1;
    var init := sites[..last];
    var b := sites[last].0;
    if b in t {
      FetchAllKeeps(t, init, b);
    } else if b in SiteAddrs(init) {
      var j :| 0 <= j < last && init[j].0 == b;
      assert init[j] == sites[j];
    }
  }

  /** The sites before the last keep the lengths they were given. */
  lemma FetchAllSizeLater(t: Table, sites: seq<(Addr, int)>)
    requires sites != []
    requires var init := sites[..|sites| - 1];
      forall j :: 0 <= j < |init| ==> FetchAll(t, init)[init[j].0].size == init[j].1
    ensures forall k :: 0 <= k < |sites| - 1 ==> FetchAll(t, sites)[sites[k].0].size == sites[k].1
  {
    var init := sites[..|sites| - 1];
    forall k | 0 <= k < |sites| - 1
      ensures FetchAll(t, sites)[sites[k].0].size == sites[k].1
    {
      assert init[k] == sites[k];
    }
  }

  /** A site not in the table before gets a fresh record: its own address,
      its length and a zero count. */
  lemma {:induction false} FetchAllNew(t: Table, sites: seq<(Addr, int)>, k: nat)
    requires SitesAgree(t, sites) && k < |sites| && sites[k].0 !in t
    ensures FetchAll(t, sites)[sites[k].0] == Instr(sites[k].0, sites[k].1, 0)
    decreases |sites|
  {
    var last := |sites| - 1;
    var init := sites[..last];
    var u := FetchAll(t, init);
    var b := sites[last].0;
    SitesAgreePrefix(t, sites, last);
    if k < last {
      assert init[k] == sites[k];
      FetchAllNew(t, init, k);
    } else if b in u {
      var j :| 0 <= j < last && init[j].0 == b;
      assert init[j] == sites[j];
      FetchAllNew(t, init, j);
    }
  }

  lemma {:induction false} FetchAllWellKeyed(t: Table, sites: seq<(Addr, int)>)
    requires WellKeyed(t)
    ensures WellKeyed(FetchAll(t, sites))
    decreases |sites|
  {
    if sites != [] {
      FetchAllWellKeyed(t, sites[..|sites| - 1]);
    }
  }

  /** The loop step: fetching site `i` after the first `i` sites passes the
      size assertion and extends the fold by one site. */
  lemma FetchAllStep(t: Table, sites: seq<(Addr, int)>, i: nat)
    requires SitesAgree(t, sites) && i < |sites|
    ensures Compatible(FetchAll(t, sites[..i]), sites[i].0, sites[i].1)
    ensures FetchAll(t, sites[..i + 1]) == Fetched(FetchAll(t, sites[..i]), sites[i].0, sites[i].1)
  {
    var u := FetchAll(t, sites[..i]);
    var a := sites[i].0;
    if a in u {
      SitesAgreePrefix(t, sites, i);
      if a in t {
        FetchAllKeeps(t, sites[..i], a);
      } else {
        var j :| 0 <= j < i && sites[..i][j].0 == a;
        FetchAllSizes(t, sites[..i]);
      }
    }
    assert sites[..i + 1][..i] == sites[..i];
  }

  /** The sum of the execution counts of all records. */
  ghost function Total(t: Table): nat
    decreases |t|
  {
    if t == map[] then 0
    else
      var a :| a in t;
      t[a].execCount + Total(t - {a})
  }

  /** `Total` may be unfolded at any key, not only at the one it picks. */
  lemma {:induction false} TotalAt(t: Table, a: Addr)
    requires a in t
    ensures Total(t) == t[a].execCount + Total(t - {a})
    decreases |t|
  {
    var b :| b in t && Total(t) == t[b].execCount + Total(t - {b});
    if b != a {
      assert |t - {b}| < |t|;
      assert |t - {a}| < |t|;
      TotalAt(t - {b}, a);
      TotalAt(t - {a}, b);
      assert t - {b} - {a} == t - {a} - {b};
    }
  }

  /** Creating a record adds nothing to the total (the new count is 0). */
  lemma FetchedTotal(t: Table, a: Addr, size: int)
    ensures Total(Fetched(t, a, size)) == Total(t)
  {
    if a !in t {
      var r := Fetched(t, a, size);
      TotalAt(r, a);
      assert r - {a} == t;
    }
  }

  /** Adding `d` to one record adds exactly `d` to the total. */
  lemma AddCountTotal(t: Table, a: Addr, d: nat)
    requires a in t
    ensures Total(AddCount(t, a, d)) == Total(t) + d
  {
    var r := AddCount(t, a, d);
    TotalAt(r, a);
    TotalAt(t, a);
    assert r - {a} == t - {a};
  }
}

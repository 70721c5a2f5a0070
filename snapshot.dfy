/**
 * The snapshot text format, one record per line:
 *   `%p:%d:%lu\n`  written as  address : size : execution count
 * and the merge of a snapshot into the registry.  A line is read by skipping
 * its first two characters, splitting the rest at the separators `:`, `\r`
 * and `\n` as `strtok` does, and then reading a hexadecimal address, a signed
 * decimal size and a decimal count from the first three tokens.
 */
module Snapshot {
  import opened Registry

  datatype Option<T> = None | Some(value: T)

  // ---------------------------------------------------------------------
  // Digits
  // ---------------------------------------------------------------------

  const DIGITS := "0123456789abcdef"

  /** The value of a digit character, hexadecimal letters in either case;
      16 for a character that is no digit at all. */
  function DigitValue(c: char): nat {
    if '0' <= c <= '9' then c as nat - '0' as nat
    else if 'a' <= c <= 'f' then c as nat - 'a' as nat + 10
    else if 'A' <= c <= 'F' then c as nat - 'A' as nat + 10
    else 16
  }

  /** A non-empty string of digits of the given base. */
  predicate IsDigits(s: string, base: nat) {
    |s| > 0 && forall k :: 0 <= k < |s| ==> DigitValue(s[k]) < base
  }

  /** The number a string of digits denotes. */
  function Value(s: string, base: nat): nat
    requires forall k :: 0 <= k < |s| ==> DigitValue(s[k]) < base
    decreases |s|
  {
    if s == [] then 0
    else
      var last := |s| - 1;
      Value(s[..last], base) * base + DigitValue(s[last])
  }

  /** `n` written in `base` without leading zeros, lower-case letters
      (the digits `printf` writes for `%lu` and for `%p`). */
  function Render(n: nat, base: nat): (s: string)
    requires 2 <= base <= 16
    ensures IsDigits(s, base)
    ensures Value(s, base) == n
    decreases n
  {
    if n < base then
      DigitOf(n, base);
      assert [DIGITS[n]][..0] == [];
      [DIGITS[n]]
    else
      var q, m := n / base, n % base;
      DivMod(n, base);
      var p := Render(q, base);
      AppendDigit(p, m, base);
      p + [DIGITS[m]]
  }

  /** The digit character written for `m` reads back as `m`. */
  lemma DigitOf(m: nat, base: nat)
    requires m < base <= 16
    ensures DigitValue(DIGITS[m]) == m
  {
  }

  lemma AppendDigit(p: string, m: nat, base: nat)
    requires m < base <= 16 && IsDigits(p, base)
    ensures IsDigits(p + [DIGITS[m]], base)
    ensures Value(p + [DIGITS[m]], base) == Value(p, base) * base + m
  {
    var s := p + [DIGITS[m]];
    DigitOf(m, base);
    assert s[..|s| - 1] == p;
  }

  lemma DivMod(n: nat, base: nat)
    requires 2 <= base
    ensures n / base < n || n == 0
    ensures n == (n / base) * base + n % base && n % base < base
  {
  }

  /** `%d`: an optional minus sign and decimal digits.  The text reads back
      as `i` and holds no separator. */
  function RenderInt(i: int): (s: string)
    ensures IsSignedDecimal(s) && SignedValue(s) == i
    ensures s != [] && SepFree(s)
  {
    if i < 0 then
      var d := Render(-i, 10);
      DigitsSepFree(d, 10);
      assert ("-" + d)[1..] == d;
      assert forall k :: 1 <= k < |"-" + d| ==> ("-" + d)[k] == d[k - 1];
      "-" + d
    else
      var d := Render(i, 10);
      assert DigitValue(d[0]) < 10;
      DigitsSepFree(d, 10);
      d
  }

  /** `%p` as the GNU C library prints it: `0x` and lower-case hexadecimal
      digits, or `(nil)` for the null pointer.  The C standard leaves the
      form of `%p` to the implementation. */
  function RenderPointer(a: Addr): (s: string)
    ensures a == 0 ==> s == "(nil)"
    ensures a != 0 ==> |s| > 2 && s[..2] == "0x" && IsDigits(s[2..], 16) && Value(s[2..], 16) == a
  {
    if a == 0 then "(nil)"
    else
      var h := Render(a, 16);
      assert ("0x" + h)[2..] == h;
      "0x" + h
  }

  predicate IsSignedDecimal(s: string) {
    IsDigits(s, 10) || (|s| > 1 && s[0] == '-' && IsDigits(s[1..], 10))
  }

  function SignedValue(s: string): int
    requires IsSignedDecimal(s)
  {
    if s[0] == '-' then -(Value(s[1..], 10) as int) else Value(s, 10)
  }

  // ---------------------------------------------------------------------
  // Lines
  // ---------------------------------------------------------------------

  /** The line `dump_instr` writes for one record. */
  function FormatLine(r: Instr): (s: string)
    ensures |s| > 5 && s[|s| - 1] == '\n'
    ensures r.addr != 0 ==> s[..2] == "0x"
    ensures r.addr == 0 ==> s[..5] == "(nil)"
  {
    RenderPointer(r.addr) + ":" + RenderInt(r.size) + ":" + Render(r.execCount, 10) + "\n"
  }

  /** The separator set given to `strtok`. */
  predicate IsSep(c: char) {
    c == ':' || c == '\r' || c == '\n'
  }

  predicate SepFree(s: string) {
    forall k :: 0 <= k < |s| ==> !IsSep(s[k])
  }

  /** The length of the token at the start of `s`. */
  function TokenEnd(s: string): (n: nat)
    ensures n <= |s|
    ensures SepFree(s[..n])
    ensures n < |s| ==> IsSep(s[n])
    decreases |s|
  {
    if s == [] || IsSep(s[0]) then 0
    else
      var n := 1 + TokenEnd(s[1..]);
      assert s[..n] == [s[0]] + s[1..][..n - 1];
      n
  }

  /** The tokens successive `strtok` calls return: maximal runs of
      non-separators, with runs of separators skipped. */
  function Tokens(s: string): (r: seq<string>)
    ensures forall i :: 0 <= i < |r| ==> r[i] != [] && SepFree(r[i])
    decreases |s|
  {
    if s == [] then []
    else if IsSep(s[0]) then Tokens(s[1..])
    else
      var n := TokenEnd(s);
      [s[..n]] + Tokens(s[n..])
  }

  /** The record `read_instrs` takes from one line, or `None` for a line
      outside the modelled format: shorter than the two skipped characters,
      with fewer than three tokens, or with a field that is not a plain
      digit string. */
  function ParseLine(line: string): (r: Option<Instr>)
    ensures |line| < 2 ==> r.None?
    ensures r.Some? ==> |Tokens(line[2..])| >= 3
  {
    if |line| < 2 then None
    else
      var f := Tokens(line[2..]);
      if |f| < 3 || !IsDigits(f[0], 16) || !IsSignedDecimal(f[1]) || !IsDigits(f[2], 10) then None
      else Some(Instr(Value(f[0], 16), SignedValue(f[1]), Value(f[2], 10)))
  }

  predicate AllParse(lines: seq<string>) {
    forall i :: 0 <= i < |lines| ==> ParseLine(lines[i]).Some?
  }

  function ParseAll(lines: seq<string>): (rs: seq<Instr>)
    requires AllParse(lines)
    ensures |rs| == |lines|
    ensures forall i :: 0 <= i < |lines| ==> ParseLine(lines[i]) == Some(rs[i])
    decreases |lines|
  {
    if lines == [] then []
    else
      var last := |lines| - 1;
      ParseAll(lines[..last]) + [ParseLine(lines[last]).value]
  }

  /** The lines of a dump: one per record.  The order in which the registry
      is walked is unspecified, so a dump is a set of lines. */
  function DumpLines(t: Table): (s: set<string>)
    ensures forall a {:trigger FormatLine(t[a])} :: a in t ==> FormatLine(t[a]) in s
  {
    set a | a in t :: FormatLine(t[a])
  }

  // ---------------------------------------------------------------------
  // Merge
  // ---------------------------------------------------------------------

  /** No record makes `fetch_instr` fail its size assertion, whatever the
      order: each agrees with the table and with every record of the same
      address. */
  predicate RecordsAgree(t: Table, rs: seq<Instr>) {
    && (forall j :: 0 <= j < |rs| ==> Compatible(t, rs[j].addr, rs[j].size))
    && (forall i, j :: 0 <= i < |rs| && 0 <= j < |rs| && rs[i].addr == rs[j].addr ==> rs[i].size == rs[j].size)
  }

  /** A snapshot file can be merged: every line parses and the sizes agree. */
  predicate Readable(t: Table, lines: seq<string>) {
    AllParse(lines) && RecordsAgree(t, ParseAll(lines))
  }

  function AddrSet(rs: seq<Instr>): set<Addr> {
    set j | 0 <= j < |rs| :: rs[j].addr
  }

  /** The sum of the counts of the records for `a`. */
  function SumFor(rs: seq<Instr>, a: Addr): nat
    decreases |rs|
  {
    if rs == [] then 0
    else
      var last := |rs| - 1;
      SumFor(rs[..last], a) + (if rs[last].addr == a then rs[last].execCount else 0)
  }

  /** One line of `read_instrs`: fetch the record, then add the count. */
  function MergeOne(t: Table, r: Instr): (u: Table)
    ensures u.Keys == t.Keys + {r.addr}
    ensures u[r.addr].execCount == Base(t, r.addr) + r.execCount
    ensures r.addr !in t ==> u[r.addr] == r
    ensures r.addr in t ==> u[r.addr].addr == t[r.addr].addr
    ensures Compatible(t, r.addr, r.size) ==> u[r.addr].size == r.size
    ensures forall b :: b in t && b != r.addr ==> u[b] == t[b]
  {
    AddCount(Fetched(t, r.addr, r.size), r.addr, r.execCount)
  }

  lemma RecordsAgreePrefix(t: Table, rs: seq<Instr>, n: nat)
    requires RecordsAgree(t, rs) && n <= |rs|
    ensures RecordsAgree(t, rs[..n])
  {
  }

  /** The table after merging records `rs` in order.  `RecordsAgree` is what
      makes every step pass the size check (`MergeStep`). */
  function Merge(t: Table, rs: seq<Instr>): (u: Table)
    ensures u.Keys == t.Keys + AddrSet(rs)
    ensures forall j :: 0 <= j < |rs| ==> rs[j].addr in u
    decreases |rs|
  {
    if rs == [] then t
    else
      var last := |rs| - 1;
      assert AddrSet(rs) == AddrSet(rs[..last]) + {rs[last].addr} by {
        assert forall j :: 0 <= j < last ==> rs[..last][j] == rs[j];
      }
      MergeOne(Merge(t, rs[..last]), rs[last])
  }

  /** Records already in the table keep their address and length. */
  lemma {:induction false} MergeKeeps(t: Table, rs: seq<Instr>, a: Addr)
    requires a in t
    ensures Merge(t, rs)[a].addr == t[a].addr && Merge(t, rs)[a].size == t[a].size
    decreases |rs|
  {
    if rs != [] {
      MergeKeeps(t, rs[..|rs| - 1], a);
    }
  }

  /** A record the merge creates is stored under its own address. */
  lemma {:induction false} MergeNewAddr(t: Table, rs: seq<Instr>, a: Addr)
    requires a in Merge(t, rs) && a !in t
    ensures Merge(t, rs)[a].addr == a
    decreases |rs|
  {
    if rs != [] {
      var init := rs[..|rs| - 1];
      if a in Merge(t, init) {
        MergeNewAddr(t, init, a);
      }
    }
  }

  /** After the merge, every record's address has that record's length. */
  lemma {:induction false} MergeSizes(t: Table, rs: seq<Instr>)
    requires RecordsAgree(t, rs)
    ensures forall j :: 0 <= j < |rs| ==> Merge(t, rs)[rs[j].addr].size == rs[j].size
    decreases |rs|
  {
    if rs != [] {
      RecordsAgreePrefix(t, rs, |rs| - 1);
      MergeSizes(t, rs[..|rs| - 1]);
      MergeSizeLater(t, rs);
      MergeSizeLast(t, rs);
    }
  }

  lemma MergeSizeLast(t: Table, rs: seq<Instr>)
    requires RecordsAgree(t, rs) && rs != []
    requires var init := rs[..|rs| - 1];
      forall j :: 0 <= j < |init| ==> Merge(t, init)[init[j].addr].size == init[j].size
    ensures Merge(t, rs)[rs[|rs| - 1].addr].size == rs[|rs| - 1].size
  {
    var last := |rs| - 1;
    var init := rs[..last];
    var b := rs[last].addr;
    if b in t {
      MergeKeeps(t, init, b);
    } else if b in AddrSet(init) {
      var j :| 0 <= j < last && init[j].addr == b;
      assert init[j] == rs[j];
    }
  }

  lemma MergeSizeLater(t: Table, rs: seq<Instr>)
    requires rs != []
    requires var init := rs[..|rs| - 1];
      forall j :: 0 <= j < |init| ==> Merge(t, init)[init[j].addr].size == init[j].size
    ensures forall k :: 0 <= k < |rs| - 1 ==> Merge(t, rs)[rs[k].addr].size == rs[k].size
  {
    var init := rs[..|rs| - 1];
    forall k | 0 <= k < |rs| - 1
      ensures Merge(t, rs)[rs[k].addr].size == rs[k].size
    {
      assert init[k] == rs[k];
    }
  }

  /** The loop step of `read_instrs`: the record at position `i` passes the
      size check against the table the records before it leave, and merging
      it extends the prefix by one. */
  lemma MergeStep(t: Table, rs: seq<Instr>, i: nat)
    requires RecordsAgree(t, rs) && i < |rs|
    ensures Compatible(Merge(t, rs[..i]), rs[i].addr, rs[i].size)
    ensures Merge(t, rs[..i + 1]) == MergeOne(Merge(t, rs[..i]), rs[i])
  {
    var u := Merge(t, rs[..i]);
    var a := rs[i].addr;
    if a in u {
      if a in t {
        MergeKeeps(t, rs[..i], a);
      } else {
        RecordsAgreePrefix(t, rs, i);
        var j :| 0 <= j < i && rs[..i][j].addr == a;
        MergeSizes(t, rs[..i]);
        assert rs[..i][j] == rs[j];
      }
    }
    assert rs[..i + 1][..i] == rs[..i];
  }

  /** Merging is additive: every count ends as the count before plus the
      sum of the counts the snapshot holds for that address. */
  lemma {:induction false} MergeCounts(t: Table, rs: seq<Instr>, a: Addr)
    requires a in Merge(t, rs)
    ensures Merge(t, rs)[a].execCount == Base(t, a) + SumFor(rs, a)
    decreases |rs|
  {
    if rs != [] {
      var last := |rs| - 1;
      var u := Merge(t, rs[..last]);
      if a in u {
        MergeCounts(t, rs[..last], a);
      } else {
        assert a == rs[last].addr;
        assert a !in t;
        SumForAbsent(rs[..last], a);
      }
    }
  }

  /** Records for other addresses contribute nothing to the sum for `a`. */
  lemma {:induction false} SumForAbsent(rs: seq<Instr>, a: Addr)
    requires a !in AddrSet(rs)
    ensures SumFor(rs, a) == 0
    decreases |rs|
  {
    if rs != [] {
      var last := |rs| - 1;
      assert AddrSet(rs[..last]) <= AddrSet(rs);
      SumForAbsent(rs[..last], a);
    }
  }

  /** The contribution of one record to `SumFor`. */
  function Share(r: Instr, a: Addr): nat {
    if r.addr == a then r.execCount else 0
  }

  lemma SumForRemove(qs: seq<Instr>, k: nat, a: Addr)
    requires k < |qs|
    ensures SumFor(qs, a) == SumFor(qs[..k] + qs[k + 1..], a) + Share(qs[k], a)
  {
    var xs, ys := qs[..k], qs[k + 1..];
    assert qs == xs + ([qs[k]] + ys);
    SumForSplit(xs, [qs[k]] + ys, a);
    SumForSplit([qs[k]], ys, a);
    SumForSplit(xs, ys, a);
    assert [qs[k]][..0] == [];
  }

  /** `SumFor` depends only on the multiset of records. */
  lemma {:induction false} SumForPermutation(rs: seq<Instr>, qs: seq<Instr>, a: Addr)
    requires multiset(rs) == multiset(qs)
    ensures SumFor(rs, a) == SumFor(qs, a)
    decreases |rs|
  {
    if rs == [] {
      assert |qs| == |multiset(qs)| == 0;
    } else {
      var last := |rs| - 1;
      var x := rs[last];
      assert x in multiset(qs);
      var k :| 0 <= k < |qs| && qs[k] == x;
      var rest := qs[..k] + qs[k + 1..];
      MultisetRemove(rs, last);
      MultisetRemove(qs, k);
      SumForPermutation(rs[..last], rest, a);
      SumForRemove(qs, k, a);
      SumForRemove(rs, last, a);
      assert rs[..last] + rs[last + 1..] == rs[..last];
    }
  }

  lemma MultisetRemove(qs: seq<Instr>, k: nat)
    requires k < |qs|
    ensures multiset(qs[..k] + qs[k + 1..]) == multiset(qs) - multiset{qs[k]}
  {
    assert qs == qs[..k] + [qs[k]] + qs[k + 1..];
  }

  lemma {:induction false} SumForSplit(xs: seq<Instr>, ys: seq<Instr>, a: Addr)
    ensures SumFor(xs + ys, a) == SumFor(xs, a) + SumFor(ys, a)
    decreases |ys|
  {
    if ys == [] {
      assert xs + ys == xs;
    } else {
      var last := |ys| - 1;
      assert (xs + ys)[..|xs + ys| - 1] == xs + ys[..last];
      SumForSplit(xs, ys[..last], a);
    }
  }

  /** Records of a permutation agree as the originals do, and mention the
      same addresses. */
  lemma PermutationAgrees(t: Table, rs: seq<Instr>, qs: seq<Instr>)
    requires RecordsAgree(t, rs)
    requires multiset(rs) == multiset(qs)
    ensures forall j :: 0 <= j < |qs| ==> qs[j] in rs
    ensures RecordsAgree(t, qs)
    ensures AddrSet(rs) == AddrSet(qs)
  {
    forall j | 0 <= j < |qs| ensures qs[j] in rs {
      assert qs[j] in multiset(rs);
    }
    forall i | 0 <= i < |rs| ensures rs[i].addr in AddrSet(qs) {
      assert rs[i] in multiset(qs);
      var k :| 0 <= k < |qs| && qs[k] == rs[i];
    }
  }

  lemma MergePermutationAt(t: Table, rs: seq<Instr>, qs: seq<Instr>, a: Addr)
    requires RecordsAgree(t, rs) && RecordsAgree(t, qs)
    requires multiset(rs) == multiset(qs)
    requires forall j :: 0 <= j < |qs| ==> qs[j] in rs
    requires a in Merge(t, rs) && a in Merge(t, qs)
    ensures Merge(t, rs)[a] == Merge(t, qs)[a]
  {
    var u, v := Merge(t, rs), Merge(t, qs);
    MergeCounts(t, rs, a);
    MergeCounts(t, qs, a);
    SumForPermutation(rs, qs, a);
    if a in t {
      MergeKeeps(t, rs, a);
      MergeKeeps(t, qs, a);
    } else {
      MergeNewAddr(t, rs, a);
      MergeNewAddr(t, qs, a);
      var j :| 0 <= j < |qs| && qs[j].addr == a;
      var i :| 0 <= i < |rs| && rs[i] == qs[j];
      MergeSizes(t, rs);
      MergeSizes(t, qs);
      assert u[a].size == rs[i].size == v[a].size;
    }
  }

  /** Merging does not depend on the order of the records: any permutation
      of a snapshot gives the same table. */
  lemma MergeOrderIndependent(t: Table, rs: seq<Instr>, qs: seq<Instr>)
    requires RecordsAgree(t, rs)
    requires multiset(rs) == multiset(qs)
    ensures RecordsAgree(t, qs)
    ensures Merge(t, rs) == Merge(t, qs)
  {
    PermutationAgrees(t, rs, qs);
    var u, v := Merge(t, rs), Merge(t, qs);
    assert u.Keys == v.Keys;
    forall a | a in v ensures u[a] == v[a] {
      MergePermutationAt(t, rs, qs, a);
    }
    SameTable(u, v);
  }

  /** Merging snapshot `A` and then snapshot `B` gives the same counts as
      merging `B` and then `A`. */
  lemma MergeCommutes(t: Table, xs: seq<Instr>, ys: seq<Instr>)
    requires RecordsAgree(t, xs + ys)
    ensures RecordsAgree(t, ys + xs)
    ensures Merge(t, xs + ys) == Merge(t, ys + xs)
  {
    assert multiset(xs + ys) == multiset(ys + xs);
    MergeOrderIndependent(t, xs + ys, ys + xs);
  }

  lemma MergeUnfold(t: Table, rs: seq<Instr>)
    requires rs != []
    ensures Merge(t, rs) == MergeOne(Merge(t, rs[..|rs| - 1]), rs[|rs| - 1])
  {
  }

  /** Merging one snapshot after another is merging their concatenation. */
  lemma {:induction false} MergeConcat(t: Table, xs: seq<Instr>, ys: seq<Instr>)
    ensures Merge(Merge(t, xs), ys) == Merge(t, xs + ys)
    decreases |ys|
  {
    if ys != [] {
      var last := |ys| - 1;
      var zs := xs + ys;
      assert zs[..|zs| - 1] == xs + ys[..last];
      assert zs[|zs| - 1] == ys[last];
      MergeConcat(t, xs, ys[..last]);
      MergeUnfold(t, zs);
      MergeUnfold(Merge(t, xs), ys);
    } else {
      assert xs + ys == xs;
    }
  }

  // ---------------------------------------------------------------------
  // Round trip
  // ---------------------------------------------------------------------

  lemma {:induction false} TokenEndOf(x: string, rest: string)
    requires SepFree(x) && rest != [] && IsSep(rest[0])
    ensures TokenEnd(x + rest) == |x|
    decreases |x|
  {
    if x != [] {
      assert (x + rest)[1..] == x[1..] + rest;
      TokenEndOf(x[1..], rest);
    } else {
      assert x + rest == rest;
    }
  }

  lemma TokensOf(x: string, c: char, rest: string)
    requires x != [] && SepFree(x) && IsSep(c)
    ensures Tokens(x + [c] + rest) == [x] + Tokens(rest)
  {
    var s := x + [c] + rest;
    assert s == x + ([c] + rest);
    TokenEndOf(x, [c] + rest);
    assert s[..|x|] == x;
    assert s[|x|..] == [c] + rest;
    assert ([c] + rest)[1..] == rest;
  }

  lemma DigitsSepFree(s: string, base: nat)
    requires IsDigits(s, base) && base <= 16
    ensures SepFree(s)
  {
  }

  /** `strtok` splits `h:d:c` and its newline into the three tokens `h`,
      `d` and `c`. */
  lemma TokensOfFields(h: string, d: string, c: string)
    requires h != [] && d != [] && c != [] && SepFree(h) && SepFree(d) && SepFree(c)
    ensures Tokens(h + ":" + d + ":" + c + "\n") == [h, d, c]
  {
    var s := h + ":" + d + ":" + c + "\n";
    var s2 := d + ":" + c + "\n";
    var s3 := c + "\n";
    assert s == h + [':'] + s2;
    assert s2 == d + [':'] + s3;
    assert s3 == c + ['\n'] + [];
    TokensOf(h, ':', s2);
    TokensOf(d, ':', s3);
    TokensOf(c, '\n', []);
  }

  lemma ParseFields(h: string, d: string, c: string)
    requires IsDigits(h, 16) && IsSignedDecimal(d) && IsDigits(c, 10)
    ensures ParseLine("0x" + h + ":" + d + ":" + c + "\n")
         == Some(Instr(Value(h, 16), SignedValue(d), Value(c, 10)))
  {
    var line := "0x" + h + ":" + d + ":" + c + "\n";
    assert line[2..] == h + ":" + d + ":" + c + "\n";
    assert SepFree(d) by {
      if d[0] == '-' {
        assert forall k :: 1 <= k < |d| ==> d[k] == d[1..][k - 1];
      }
    }
    TokensOfFields(h, d, c);
  }

  /** A line written for a record with a non-null address reads back as
      that same record. */
  lemma ParseFormat(r: Instr)
    requires r.addr != 0
    ensures ParseLine(FormatLine(r)) == Some(r)
  {
    var h, d, c := Render(r.addr, 16), RenderInt(r.size), Render(r.execCount, 10);
    assert FormatLine(r) == "0x" + h + ":" + d + ":" + c + "\n";
    ParseFields(h, d, c);
  }

  /** The null address is written as `(nil)`, which is outside the format
      the model reads back. */
  lemma NullLineUnread(size: int, count: nat)
    ensures ParseLine(FormatLine(Instr(0, size, count))) == None
  {
    var line := FormatLine(Instr(0, size, count));
    assert line[2] == 'i';
    var rest := line[2..];
    assert rest[0] == 'i' && !IsSep(rest[0]);
    var n := TokenEnd(rest);
    assert n >= 1;
    assert Tokens(rest)[0] == rest[..n];
    assert Tokens(rest)[0][0] == 'i';
  }

  lemma {:induction false} SumForUnique(rs: seq<Instr>, a: Addr, i: nat)
    requires i < |rs| && rs[i].addr == a
    requires forall j :: 0 <= j < |rs| && j != i ==> rs[j].addr != a
    ensures SumFor(rs, a) == rs[i].execCount
    decreases |rs|
  {
    var last := |rs| - 1;
    if i == last {
      assert a !in AddrSet(rs[..last]);
      SumForAbsent(rs[..last], a);
    } else {
      SumForUnique(rs[..last], a, i);
    }
  }

  /** Every line of a dump reads back as the record it was written for. */
  lemma DumpLineParses(t: Table, l: string)
    requires WellKeyed(t)
    requires forall a :: a in t ==> a != 0
    requires l in DumpLines(t)
    ensures ParseLine(l).Some?
    ensures ParseLine(l).value.addr in t && t[ParseLine(l).value.addr] == ParseLine(l).value
    ensures FormatLine(ParseLine(l).value) == l
  {
    var a :| a in t && l == FormatLine(t[a]);
    ParseFormat(t[a]);
  }

  /** The shape of the records read from a dump of `t`: distinct records,
      each one a record of `t`, covering all of `t`. */
  ghost predicate Enumerates(t: Table, rs: seq<Instr>) {
    && (forall j :: 0 <= j < |rs| ==> rs[j].addr in t && t[rs[j].addr] == rs[j])
    && (forall i, j :: 0 <= i < j < |rs| ==> rs[i] != rs[j])
    && (forall a :: a in t ==> t[a] in rs)
  }

  lemma RebuiltAt(t: Table, rs: seq<Instr>, a: Addr)
    requires Enumerates(t, rs) && RecordsAgree(map[], rs)
    requires WellKeyed(t) && a in t
    ensures a in AddrSet(rs)
    ensures Merge(map[], rs)[a] == t[a]
  {
    var i :| 0 <= i < |rs| && rs[i] == t[a];
    forall j | 0 <= j < |rs| && j != i ensures rs[j].addr != a {
      assert i < j || j < i;
    }
    SumForUnique(rs, a, i);
    MergeCounts(map[], rs, a);
    MergeSizes(map[], rs);
    MergeNewAddr(map[], rs, a);
  }

  /** Records that enumerate `t` merge into an empty table to give back `t`. */
  lemma RecordsRebuild(t: Table, rs: seq<Instr>)
    requires WellKeyed(t) && Enumerates(t, rs)
    ensures RecordsAgree(map[], rs)
    ensures Merge(map[], rs) == t
  {
    var u := Merge(map[], rs);
    forall a | a in t ensures a in u && u[a] == t[a] {
      RebuiltAt(t, rs, a);
    }
    SameTable(u, t);
  }

  lemma SameTable(u: Table, t: Table)
    requires u.Keys == t.Keys
    requires forall a :: a in t ==> u[a] == t[a]
    ensures u == t
  {
  }

  lemma DumpLinesParse(t: Table, lines: seq<string>)
    requires WellKeyed(t)
    requires forall a :: a in t ==> a != 0
    requires forall l :: l in lines ==> l in DumpLines(t)
    ensures AllParse(lines)
    ensures forall j :: 0 <= j < |lines| ==>
      ParseAll(lines)[j].addr in t && t[ParseAll(lines)[j].addr] == ParseAll(lines)[j]
    ensures forall j :: 0 <= j < |lines| ==> FormatLine(ParseAll(lines)[j]) == lines[j]
  {
    forall i | 0 <= i < |lines|
      ensures ParseLine(lines[i]).Some?
      ensures ParseLine(lines[i]).value.addr in t && t[ParseLine(lines[i]).value.addr] == ParseLine(lines[i]).value
      ensures FormatLine(ParseLine(lines[i]).value) == lines[i]
    {
      DumpLineParses(t, lines[i]);
    }
  }

  lemma DistinctRecords(rs: seq<Instr>, lines: seq<string>)
    requires |rs| == |lines|
    requires forall j :: 0 <= j < |lines| ==> FormatLine(rs[j]) == lines[j]
    requires forall i, j :: 0 <= i < j < |lines| ==> lines[i] != lines[j]
    ensures forall i, j :: 0 <= i < j < |rs| ==> rs[i] != rs[j]
  {
  }

  lemma CoveringRecords(t: Table, lines: seq<string>, rs: seq<Instr>)
    requires WellKeyed(t)
    requires forall a :: a in t ==> a != 0
    requires forall l :: l in lines <==> l in DumpLines(t)
    requires |rs| == |lines|
    requires forall j :: 0 <= j < |lines| ==> ParseLine(lines[j]) == Some(rs[j])
    ensures forall a :: a in t ==> t[a] in rs
  {
    forall a | a in t ensures t[a] in rs {
      assert FormatLine(t[a]) in DumpLines(t);
      var i :| 0 <= i < |lines| && lines[i] == FormatLine(t[a]);
      ParseFormat(t[a]);
      assert rs[i] == t[a];
    }
  }

  /** Dump/merge round trip: reading the lines of a dump, in any order, into
      an empty table rebuilds the table, when no record has the null address. */
  lemma DumpReadRoundTrip(t: Table, lines: seq<string>)
    requires WellKeyed(t)
    requires forall a :: a in t ==> a != 0
    requires forall l :: l in lines <==> l in DumpLines(t)
    requires forall i, j :: 0 <= i < j < |lines| ==> lines[i] != lines[j]
    ensures Readable(map[], lines)
    ensures Merge(map[], ParseAll(lines)) == t
  {
    DumpEnumerates(t, lines);
    RecordsRebuild(t, ParseAll(lines));
  }

  /** The lines of a dump, each once, read back as an enumeration of the
      table's records. */
  lemma DumpEnumerates(t: Table, lines: seq<string>)
    requires WellKeyed(t)
    requires forall a :: a in t ==> a != 0
    requires forall l :: l in lines <==> l in DumpLines(t)
    requires forall i, j :: 0 <= i < j < |lines| ==> lines[i] != lines[j]
    ensures AllParse(lines) && Enumerates(t, ParseAll(lines))
  {
    DumpLinesParse(t, lines);
    var rs := ParseAll(lines);
    DistinctRecords(rs, lines);
    CoveringRecords(t, lines, rs);
  }
}

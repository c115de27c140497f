/** Operating-point tables: the validator, the structure in memory, and the dump of an image. */
module OppTable {
  import opened Bytes

  const MAX_ENTRIES := 13
  const MAX_DOMAINS := 13
  const LITTLE := 2
  const MID_G1 := 6
  const DSU := 7
  const OPP_SIZE := 16
  const DOMAIN_SIZE := 212
  const SECTION_SIZE := 2756

  datatype Opp = Opp(level: word, voltage: word, frequency: word, power: word)

  datatype Domain = Domain(size: half, sustainedIdx: half, table: seq<Opp>)

  /** The list of domains; an entry may be a null pointer. */
  type Domains = seq<Option<Domain>>

  /** The array size of the structure. */
  ghost predicate TablesFull(ds: Domains) {
    forall i :: 0 <= i < |ds| && ds[i].Some? ==> |ds[i].value.table| == MAX_ENTRIES
  }

  /** The validator reads the DSU's slot, so the list has to be long enough. */
  ghost predicate Shaped(ds: Domains) {
    |ds| > DSU && TablesFull(ds)
  }

  predicate IndexOk(d: Domain) {
    d.sustainedIdx < d.size <= MAX_ENTRIES
  }

  ghost predicate IndicesOk(ds: Domains) {
    forall i :: 0 <= i < |ds| && ds[i].Some? ==> IndexOk(ds[i].value)
  }

  /** No domain claims more entries than its table has room for. */
  ghost predicate SizesFit(ds: Domains) {
    forall i :: 0 <= i < |ds| && ds[i].Some? ==> ds[i].value.size <= MAX_ENTRIES
  }

  lemma IndicesFit(ds: Domains)
    requires IndicesOk(ds)
    ensures SizesFit(ds)
  {
    forall i | 0 <= i < |ds| && ds[i].Some?
      ensures ds[i].value.size <= MAX_ENTRIES
    {
      assert IndexOk(ds[i].value);
    }
  }

  function Sustained(d: Domain): Opp
    requires |d.table| == MAX_ENTRIES && IndexOk(d)
  {
    d.table[d.sustainedIdx]
  }

  /** What the validator wants of a CPU domain: within 200 mV of the DSU, and at most about
      twice its frequency. */
  ghost predicate Compatible(cpu: Opp, dsu: Opp) {
    && -200 <= cpu.voltage as int - dsu.voltage as int <= 200
    && cpu.frequency <= 2 * (dsu.frequency as int) + 1
  }

  ghost predicate CpuOk(ds: Domains, i: nat)
    requires Shaped(ds) && IndicesOk(ds) && ds[DSU].Some? && i < |ds|
  {
    ds[i].Some? && Compatible(Sustained(ds[i].value), Sustained(ds[DSU].value))
  }

  /** The validator may also dereference a null CPU domain. */
  datatype Verdict = Accepted | Rejected | NullDereference

  ghost predicate Acceptable(ds: Domains)
    requires Shaped(ds)
  {
    IndicesOk(ds) && ds[DSU].Some? && forall i :: LITTLE <= i <= MID_G1 ==> CpuOk(ds, i)
  }

  /** Everything checked before CPU domain i is fine, and that domain is null. */
  ghost predicate Faults(ds: Domains, i: nat)
    requires Shaped(ds)
  {
    && LITTLE <= i <= MID_G1 && IndicesOk(ds) && ds[DSU].Some? && ds[i].None?
    && forall j :: LITTLE <= j < i ==> CpuOk(ds, j)
  }

  function VoltAbs(a: word, b: word): word {
    if a >= b then a - b else b - a
  }

  method CheckIndices(ds: Domains) returns (ok: bool)
    requires Shaped(ds)
    ensures ok <==> IndicesOk(ds)
  {
    for i := 0 to |ds|
      invariant forall k :: 0 <= k < i && ds[k].Some? ==> IndexOk(ds[k].value)
    {
      if ds[i].None? {
        continue;
      }
      var d := ds[i].value;
      if d.sustainedIdx >= d.size {
        return false;
      }
      if d.size > MAX_ENTRIES {
        return false;
      }
    }
    return true;
  }

  /** No null pointer is reached if the CPU domains before n are fine and n is not reached either. */
  lemma NoFault(ds: Domains, n: nat)
    requires Shaped(ds) && IndicesOk(ds) && ds[DSU].Some?
    requires forall j :: LITTLE <= j < n && j <= MID_G1 ==> CpuOk(ds, j)
    requires n <= MID_G1 ==> LITTLE <= n && ds[n].Some? && !CpuOk(ds, n)
    ensures forall k: nat :: !Faults(ds, k)
  {
    forall k: nat
      ensures !Faults(ds, k)
    {
      if LITTLE <= k <= MID_G1 {
        if k < n {
          assert CpuOk(ds, k);
        } else if n < k {
          assert !CpuOk(ds, n);
        }
      }
    }
  }

  method CheckOppTable(ds: Domains) returns (v: Verdict)
    requires Shaped(ds)
    ensures v.Accepted? <==> Acceptable(ds)
    ensures v.NullDereference? <==> exists i: nat :: Faults(ds, i)
  {
    var ok := CheckIndices(ds);
    if !ok || ds[DSU].None? {
      return Rejected;
    }
    var dsu := ds[DSU].value.table[ds[DSU].value.sustainedIdx];
    assert dsu == Sustained(ds[DSU].value);
    for i := 0 to |ds|
      invariant forall j :: LITTLE <= j < i && j <= MID_G1 ==> CpuOk(ds, j)
    {
      if i < LITTLE || i > MID_G1 {
        continue;
      }
      if ds[i].None? {
        assert !CpuOk(ds, i);
        assert Faults(ds, i);
        return NullDereference;
      }
      var opp := ds[i].value.table[ds[i].value.sustainedIdx];
      assert opp == Sustained(ds[i].value);
      if VoltAbs(opp.voltage, dsu.voltage) > 200 {
        assert !CpuOk(ds, i);
        NoFault(ds, i);
        return Rejected;
      }
      if opp.frequency / 2 > dsu.frequency {
        assert !CpuOk(ds, i);
        NoFault(ds, i);
        return Rejected;
      }
    }
    NoFault(ds, MID_G1 + 1);
    return Accepted;
  }

  /** An acceptable list of which one CPU domain is left out makes the validator dereference a null
      pointer. */
  lemma MissingCpuFaults(ds: Domains, i: nat)
    requires Shaped(ds) && Acceptable(ds) && LITTLE <= i <= MID_G1
    ensures Shaped(ds[i := None]) && Faults(ds[i := None], i)
  {
    var es := ds[i := None];
    forall j | LITTLE <= j < i
      ensures CpuOk(es, j)
    {
      assert CpuOk(ds, j);
    }
  }

  /** Such a list exists: a DSU domain with one entry, and no CPU domain. */
  lemma NullCpuExists() returns (ds: Domains)
    ensures Shaped(ds) && |ds| <= MAX_DOMAINS && ds[DSU].Some? && Faults(ds, LITTLE)
  {
    var dsu := Domain(1, 0, seq(MAX_ENTRIES, _ => Opp(0, 0, 0, 0)));
    ds := [None, None, None, None, None, None, None, Some(dsu)];
    assert IndexOk(dsu);
  }

  /** Of an accepted table: any two CPU domains sustain voltages within 400 mV of each other,
      and no CPU domain sustains more than twice the DSU's frequency plus one. */
  lemma AcceptedCpus(ds: Domains, i: nat, j: nat)
    requires Shaped(ds) && Acceptable(ds)
    requires LITTLE <= i <= MID_G1 && LITTLE <= j <= MID_G1
    ensures ds[i].Some? && ds[j].Some? && ds[DSU].Some?
    ensures -400 <= Sustained(ds[i].value).voltage as int - Sustained(ds[j].value).voltage as int <= 400
    ensures Sustained(ds[i].value).frequency <= 2 * (Sustained(ds[DSU].value).frequency as int) + 1
  {
    assert CpuOk(ds, i) && CpuOk(ds, j);
  }

  /** The entry a domain can sustain, and the two rules for it, in numbers. */
  ghost predicate WithinReach(cpu: Domain, dsu: Domain)
    requires |cpu.table| == |dsu.table| == 13 && cpu.sustainedIdx < 13 && dsu.sustainedIdx < 13
  {
    var a, b := cpu.table[cpu.sustainedIdx], dsu.table[dsu.sustainedIdx];
    a.voltage <= b.voltage + 200 && b.voltage <= a.voltage + 200 && a.frequency / 2 <= b.frequency
  }

  lemma CpuInNumbers(ds: Domains, i: nat)
    requires Shaped(ds) && IndicesOk(ds) && ds[7].Some? && i < |ds|
    ensures ds[i].Some? ==> ds[i].value.sustainedIdx < 13
    ensures ds[7].value.sustainedIdx < 13
    ensures CpuOk(ds, i) <==> ds[i].Some? && WithinReach(ds[i].value, ds[7].value)
  {
    assert IndexOk(ds[7].value);
    assert ds[i].Some? ==> IndexOk(ds[i].value);
  }

  /** Every index is below its size, and no size exceeds 13. */
  ghost predicate Indexed(ds: Domains) {
    forall i :: 0 <= i < |ds| && ds[i].Some? ==> ds[i].value.sustainedIdx < ds[i].value.size <= 13
  }

  /** Acceptance in numbers: domain 7 is there, and so are domains 2 to 6, each of them within 200 mV of
      domain 7 and with half its frequency at most that of domain 7. */
  lemma AcceptedInNumbers(ds: Domains)
    requires Shaped(ds)
    ensures Acceptable(ds) <==>
            && Indexed(ds) && ds[7].Some?
            && forall i :: 2 <= i <= 6 ==> ds[i].Some? && WithinReach(ds[i].value, ds[7].value)
  {
    if Indexed(ds) && ds[7].Some? {
      assert IndicesOk(ds);
      forall i | 2 <= i <= 6
        ensures CpuOk(ds, i) <==> ds[i].Some? && WithinReach(ds[i].value, ds[7].value)
      {
        CpuInNumbers(ds, i);
      }
    }
  }

  /** The null pointer that is reached, in numbers: the first of domains 2 to 6 that fails is missing. */
  lemma FaultInNumbers(ds: Domains, i: nat)
    requires Shaped(ds)
    ensures Faults(ds, i) <==>
            && 2 <= i <= 6 && Indexed(ds) && ds[7].Some? && ds[i].None?
            && forall j :: 2 <= j < i ==> ds[j].Some? && WithinReach(ds[j].value, ds[7].value)
  {
    if 2 <= i <= 6 && Indexed(ds) && ds[7].Some? {
      assert IndicesOk(ds);
      forall j | 2 <= j < i
        ensures CpuOk(ds, j) <==> ds[j].Some? && WithinReach(ds[j].value, ds[7].value)
      {
        CpuInNumbers(ds, j);
      }
    }
  }

  /** Lists at the edge of acceptance: 200 mV below domain 7 and 2*f + 1 against its frequency f is
      accepted, one more of either is not. */
  lemma EdgeOfAcceptance(cpu: Opp, dsu: Opp, below: nat, over: nat) returns (ds: Domains)
    requires dsu.voltage == cpu.voltage + below && cpu.frequency == 2 * (dsu.frequency as int) + over
    ensures Shaped(ds) && Acceptable(ds) <==> below <= 200 && over <= 1
  {
    var d, c := Domain(1, 0, seq(13, _ => dsu)), Domain(1, 0, seq(13, _ => cpu));
    ds := [None, None, Some(c), Some(c), Some(c), Some(c), Some(c), Some(d)];
    AcceptedInNumbers(ds);
    assert ds[2] == Some(c);
    assert WithinReach(c, d) <==> below <= 200 && over <= 1;
  }

  // ----- the structure in memory -----

  function OppBytes(o: Opp): (r: seq<byte>)
    ensures |r| == OPP_SIZE
  {
    Le32(o.level) + Le32(o.voltage) + Le32(o.frequency) + Le32(o.power)
  }

  function TableBytes(t: seq<Opp>, n: nat): (r: seq<byte>)
    requires n <= |t|
    ensures |r| == 16 * n
  {
    if n == 0 then [] else TableBytes(t, n - 1) + OppBytes(t[n - 1])
  }

  function DomainBytes(d: Domain): (r: seq<byte>)
    requires |d.table| == MAX_ENTRIES
    ensures |r| == DOMAIN_SIZE
  {
    Le16(d.size) + Le16(d.sustainedIdx) + TableBytes(d.table, MAX_ENTRIES)
  }

  function ReadOpp(s: seq<byte>, at: nat): Opp
    requires at + OPP_SIZE <= |s|
  {
    Opp(Get32(s, at), Get32(s, at + 4), Get32(s, at + 8), Get32(s, at + 12))
  }

  lemma OppRoundTrip(s: seq<byte>, at: nat, o: Opp)
    requires at + OPP_SIZE <= |s| && s[at..at + OPP_SIZE] == OppBytes(o)
    ensures ReadOpp(s, at) == o
  {
    var b := s[at..at + OPP_SIZE];
    assert b == (Le32(o.level) + Le32(o.voltage)) + (Le32(o.frequency) + Le32(o.power));
    FieldReads(s, at, b, 0, o.level);
    FieldReads(s, at, b, 4, o.voltage);
    FieldReads(s, at, b, 8, o.frequency);
    FieldReads(s, at, b, 12, o.power);
  }

  lemma FieldReads(s: seq<byte>, at: nat, b: seq<byte>, k: nat, v: word)
    requires at + |b| <= |s| && b == s[at..at + |b|] && k + 4 <= |b|
    requires b[k..k + 4] == Le32(v)
    ensures Get32(s, at + k) == v
  {
    var x := s[at + k..at + k + 4];
    forall n | 0 <= n < 4
      ensures x[n] == Le32(v)[n]
    {
      assert x[n] == b[k + n] == b[k..k + 4][n];
    }
    Le32RoundTrip(s, at + k, v);
  }

  lemma {:induction false} TableAt(t: seq<Opp>, n: nat, j: nat)
    requires j < n <= |t|
    ensures TableBytes(t, n)[16 * j..16 * j + OPP_SIZE] == OppBytes(t[j])
  {
    if j == n - 1 {
    } else {
      TableAt(t, n - 1, j);
      var p := TableBytes(t, n - 1);
      assert (p + OppBytes(t[n - 1]))[16 * j..16 * j + OPP_SIZE] == p[16 * j..16 * j + OPP_SIZE];
    }
  }

  lemma SliceWithin(s: seq<byte>, at: nat, b: seq<byte>, o: nat, n: nat)
    requires at + |b| <= |s| && s[at..at + |b|] == b && o + n <= |b|
    ensures s[at + o..at + o + n] == b[o..o + n]
  {
    var x, y := s[at + o..at + o + n], b[o..o + n];
    forall m | 0 <= m < n
      ensures x[m] == y[m]
    {
      assert x[m] == s[at..at + |b|][o + m];
    }
  }

  /** Wherever the structure of a domain lies, its size, its index and entry j are read from it. */
  lemma DomainReads(s: seq<byte>, at: nat, d: Domain, j: nat)
    requires |d.table| == MAX_ENTRIES && j < MAX_ENTRIES
    requires at + DOMAIN_SIZE <= |s| && s[at..at + DOMAIN_SIZE] == DomainBytes(d)
    ensures Get16(s, at) == d.size && Get16(s, at + 2) == d.sustainedIdx
    ensures ReadOpp(s, at + 4 + 16 * j) == d.table[j]
  {
    var b, t := DomainBytes(d), TableBytes(d.table, MAX_ENTRIES);
    assert s[at] == b[0] && s[at + 1] == b[1] && s[at + 2] == b[2] && s[at + 3] == b[3];
    TableAt(d.table, MAX_ENTRIES, j);
    SliceWithin(s, at, b, 4 + 16 * j, OPP_SIZE);
    assert b[4..] == t;
    SliceWithin(b, 4, t, 16 * j, OPP_SIZE);
    OppRoundTrip(s, at + 4 + 16 * j, d.table[j]);
  }

  // ----- the dump -----

  datatype Row = Row(domain: nat, index: nat, sustained: bool, opp: Opp)

  const SIZE_UNSET := 0xFFFF

  /** Where domain i of an opp section starts. */
  function DomainAt(i: nat): nat {
    212 * i
  }

  /** Every domain the dump walks through has no more entries than its table has room for. */
  predicate Dumpable(s: seq<byte>)
    requires |s| == SECTION_SIZE
  {
    forall i :: 0 <= i < MAX_DOMAINS ==>
      Get16(s, DomainAt(i)) == SIZE_UNSET || Get16(s, DomainAt(i)) <= MAX_ENTRIES
  }

  function RowAt(s: seq<byte>, i: nat, j: nat): Row
    requires |s| == SECTION_SIZE && i < MAX_DOMAINS && j < MAX_ENTRIES
  {
    Row(i, j, j == Get16(s, DomainAt(i) + 2), ReadOpp(s, DomainAt(i) + 4 + 16 * j))
  }

  /** The rows printed for one domain. */
  function DomainRows(s: seq<byte>, i: nat, n: nat): (rows: seq<Row>)
    requires |s| == SECTION_SIZE && i < MAX_DOMAINS && n <= MAX_ENTRIES
  {
    if n == 0 then []
    else DomainRows(s, i, n - 1) + [RowAt(s, i, n - 1)]
  }

  function Printed(s: seq<byte>, i: nat): nat
    requires |s| == SECTION_SIZE && i < MAX_DOMAINS
  {
    if Get16(s, DomainAt(i)) == SIZE_UNSET then 0 else Get16(s, DomainAt(i))
  }

  function AllRows(s: seq<byte>, i: nat): (rows: seq<Row>)
    requires |s| == SECTION_SIZE && Dumpable(s) && i <= MAX_DOMAINS
  {
    if i == 0 then [] else AllRows(s, i - 1) + DomainRows(s, i - 1, Printed(s, i - 1))
  }

  /** The rows of one domain; entry j is read at its own place in the table, never behind it. */
  method DumpDomain(s: seq<byte>, i: nat, size: nat) returns (rows: seq<Row>)
    requires |s| == SECTION_SIZE && i < MAX_DOMAINS && size <= MAX_ENTRIES
    ensures rows == DomainRows(s, i, size)
  {
    var sustained := Get16(s, DomainAt(i) + 2);
    rows := [];
    var j := 0;
    while j < size
      invariant j <= size && rows == DomainRows(s, i, j)
    {
      var at := DomainAt(i) + 4 + 16 * j;
      assert at + OPP_SIZE <= DomainAt(i) + DOMAIN_SIZE;
      rows := rows + [Row(i, j, j == sustained, ReadOpp(s, at))];
      j := j + 1;
    }
  }

  /** The dump of an opp section. */
  method DumpOppConfig(s: seq<byte>) returns (rows: seq<Row>)
    requires |s| == SECTION_SIZE && Dumpable(s)
    ensures rows == AllRows(s, MAX_DOMAINS)
  {
    rows := [];
    for i := 0 to MAX_DOMAINS
      invariant rows == AllRows(s, i)
    {
      var size := Get16(s, DomainAt(i));
      if size == SIZE_UNSET {
        AppendNothing(rows);
        continue;
      }
      var more := DumpDomain(s, i, size);
      rows := rows + more;
    }
  }

  /** What the dump should show of a domain list. */
  function ListedRows(d: Domain, i: nat, n: nat): seq<Row>
    requires n <= |d.table|
  {
    if n == 0 then [] else ListedRows(d, i, n - 1) + [Row(i, n - 1, n - 1 == d.sustainedIdx, d.table[n - 1])]
  }

  /** What the dump should show of slot i. */
  ghost function ListedSlot(ds: Domains, i: nat): seq<Row>
    requires TablesFull(ds) && SizesFit(ds)
  {
    if i < |ds| && ds[i].Some? then ListedRows(ds[i].value, i, ds[i].value.size) else []
  }

  /** Domains beyond the end of the list are unset, null ones empty. */
  ghost function Listed(ds: Domains, i: nat): seq<Row>
    requires TablesFull(ds) && SizesFit(ds)
  {
    if i == 0 then [] else Listed(ds, i - 1) + ListedSlot(ds, i - 1)
  }

  /** How many entries domain i has. */
  ghost function Entries(ds: Domains, i: nat): nat {
    if i < |ds| && ds[i].Some? then ds[i].value.size else 0
  }

  /** How many entries the domains before i have. */
  ghost function EntriesBefore(ds: Domains, i: nat): nat {
    if i == 0 then 0 else EntriesBefore(ds, i - 1) + Entries(ds, i - 1)
  }

  lemma {:induction false} ListedRow(d: Domain, i: nat, n: nat, j: nat)
    requires n <= |d.table|
    ensures |ListedRows(d, i, n)| == n
    ensures j < n ==> ListedRows(d, i, n)[j] == Row(i, j, j == d.sustainedIdx, d.table[j])
  {
    if n == 0 {
    } else {
      ListedRow(d, i, n - 1, j);
    }
  }

  lemma SlotRow(ds: Domains, i: nat, j: nat)
    requires TablesFull(ds) && SizesFit(ds)
    ensures |ListedSlot(ds, i)| == Entries(ds, i)
    ensures j < Entries(ds, i) ==>
              && i < |ds| && ds[i].Some? && j < |ds[i].value.table|
              && ListedSlot(ds, i)[j] == Row(i, j, j == ds[i].value.sustainedIdx, ds[i].value.table[j])
  {
    if i < |ds| && ds[i].Some? {
      ListedRow(ds[i].value, i, ds[i].value.size, j);
    }
  }

  lemma ListedStep(ds: Domains, i: nat, m: nat)
    requires TablesFull(ds) && SizesFit(ds) && i == m - 1
    ensures Listed(ds, m) == Listed(ds, i) + ListedSlot(ds, i)
    ensures EntriesBefore(ds, m) == EntriesBefore(ds, i) + Entries(ds, i)
  {
    var rows, slot := Listed(ds, i), ListedSlot(ds, i);
    assert Listed(ds, m) == rows + slot;
  }

  lemma {:induction false} ListedLength(ds: Domains, m: nat)
    requires TablesFull(ds) && SizesFit(ds)
    ensures |Listed(ds, m)| == EntriesBefore(ds, m)
  {
    if m == 0 {
    } else {
      var i := m - 1;
      ListedLength(ds, i);
      ListedStep(ds, i, m);
      SlotRow(ds, i, 0);
    }
  }

  lemma RowBehind(a: seq<Row>, b: seq<Row>, j: nat, at: nat)
    requires j < |b| && at == |a| + j
    ensures (a + b)[at] == b[j]
  {
  }

  lemma RowBefore(a: seq<Row>, b: seq<Row>, at: nat)
    requires at < |a|
    ensures (a + b)[at] == a[at]
  {
  }

  /** Row at of the list is r. */
  ghost predicate RowIs(rows: seq<Row>, at: nat, r: Row) {
    at < |rows| && rows[at] == r
  }

  lemma {:induction false} SlotRowAt(ds: Domains, m: nat, i: nat, j: nat, at: nat)
    requires TablesFull(ds) && SizesFit(ds) && i < m && j < |ListedSlot(ds, i)| && at == EntriesBefore(ds, i) + j
    ensures RowIs(Listed(ds, m), at, ListedSlot(ds, i)[j])
    decreases m
  {
    var h := m - 1;
    ListedStep(ds, h, m);
    if i == h {
      ListedLength(ds, i);
      RowBehind(Listed(ds, i), ListedSlot(ds, i), j, at);
    } else {
      SlotRowAt(ds, h, i, j, at);
      RowBefore(Listed(ds, h), ListedSlot(ds, h), at);
    }
  }

  /** Entry j of domain i comes behind all entries of the domains before it: with its place, whether it is
      the sustained one, and its four numbers. */
  lemma ListedAt(ds: Domains, m: nat, i: nat, j: nat, at: nat)
    requires TablesFull(ds) && SizesFit(ds) && i < m && j < Entries(ds, i) && at == EntriesBefore(ds, i) + j
    ensures i < |ds| && ds[i].Some? && j < |ds[i].value.table|
    ensures RowIs(Listed(ds, m), at, Row(i, j, j == ds[i].value.sustainedIdx, ds[i].value.table[j]))
  {
    SlotRow(ds, i, j);
    SlotRowAt(ds, m, i, j, at);
  }

  /** The bytes of one slot of the section: the structure, zeros for null, 0xFF beyond the list. */
  function SlotBytes(ds: Domains, i: nat): (r: seq<byte>)
    requires TablesFull(ds)
    ensures |r| == DOMAIN_SIZE
  {
    if i >= |ds| then Fill(DOMAIN_SIZE, 0xFF)
    else if ds[i].Some? then DomainBytes(ds[i].value)
    else Fill(DOMAIN_SIZE, 0)
  }

  ghost predicate Holds(s: seq<byte>, ds: Domains)
    requires Shaped(ds)
  {
    && |s| == SECTION_SIZE && |ds| <= MAX_DOMAINS
    && forall i :: 0 <= i < MAX_DOMAINS ==> s[DomainAt(i)..DomainAt(i) + DOMAIN_SIZE] == SlotBytes(ds, i)
  }

  lemma SlotHeader(s: seq<byte>, ds: Domains, i: nat)
    requires Shaped(ds) && Holds(s, ds) && i < MAX_DOMAINS
    ensures i < |ds| && ds[i].Some? ==>
              Get16(s, DomainAt(i)) == ds[i].value.size && Get16(s, DomainAt(i) + 2) == ds[i].value.sustainedIdx
    ensures i < |ds| && ds[i].None? ==> Get16(s, DomainAt(i)) == 0
    ensures i >= |ds| ==> Get16(s, DomainAt(i)) == SIZE_UNSET
  {
    var b, at := SlotBytes(ds, i), DomainAt(i);
    assert s[at..at + DOMAIN_SIZE] == b;
    assert s[at] == b[0] && s[at + 1] == b[1] && s[at + 2] == b[2] && s[at + 3] == b[3];
  }

  lemma SlotOpp(s: seq<byte>, ds: Domains, i: nat, j: nat)
    requires Shaped(ds) && Holds(s, ds) && i < |ds| && ds[i].Some? && j < MAX_ENTRIES
    ensures ReadOpp(s, DomainAt(i) + 4 + 16 * j) == ds[i].value.table[j]
  {
    DomainReads(s, DomainAt(i), ds[i].value, j);
  }

  lemma RowMatches(s: seq<byte>, ds: Domains, i: nat, j: nat)
    requires Shaped(ds) && Holds(s, ds) && i < |ds| && ds[i].Some? && j < MAX_ENTRIES
    ensures RowAt(s, i, j) == Row(i, j, j == ds[i].value.sustainedIdx, ds[i].value.table[j])
  {
    SlotHeader(s, ds, i);
    SlotOpp(s, ds, i, j);
  }

  lemma RowsStep(s: seq<byte>, d: Domain, i: nat, n: nat)
    requires |s| == SECTION_SIZE && i < MAX_DOMAINS && n < MAX_ENTRIES == |d.table|
    requires DomainRows(s, i, n) == ListedRows(d, i, n)
    requires RowAt(s, i, n) == Row(i, n, n == d.sustainedIdx, d.table[n])
    ensures DomainRows(s, i, n + 1) == ListedRows(d, i, n + 1)
  {
  }

  lemma {:induction false} RowsMatch(s: seq<byte>, ds: Domains, i: nat, n: nat)
    requires Shaped(ds) && Holds(s, ds) && i < |ds| && ds[i].Some? && n <= MAX_ENTRIES
    ensures DomainRows(s, i, n) == ListedRows(ds[i].value, i, n)
  {
    if n == 0 {
    } else {
      RowsMatch(s, ds, i, n - 1);
      RowMatches(s, ds, i, n - 1);
      RowsStep(s, ds[i].value, i, n - 1);
    }
  }

  lemma ListDumpable(s: seq<byte>, ds: Domains)
    requires Shaped(ds) && SizesFit(ds) && Holds(s, ds)
    ensures Dumpable(s)
  {
    forall k | 0 <= k < MAX_DOMAINS
      ensures Get16(s, DomainAt(k)) == SIZE_UNSET || Get16(s, DomainAt(k)) <= MAX_ENTRIES
    {
      SlotHeader(s, ds, k);
    }
  }

  lemma SlotRows(s: seq<byte>, ds: Domains, i: nat)
    requires Shaped(ds) && SizesFit(ds) && Holds(s, ds) && i < MAX_DOMAINS && Printed(s, i) <= MAX_ENTRIES
    ensures DomainRows(s, i, Printed(s, i)) == ListedSlot(ds, i)
  {
    SlotHeader(s, ds, i);
    if i < |ds| && ds[i].Some? {
      RowsMatch(s, ds, i, ds[i].value.size);
    }
  }

  lemma AllRowsStep(s: seq<byte>, ds: Domains, i: nat)
    requires |s| == SECTION_SIZE && Dumpable(s) && i < MAX_DOMAINS
    requires TablesFull(ds) && SizesFit(ds)
    requires AllRows(s, i) == Listed(ds, i) && DomainRows(s, i, Printed(s, i)) == ListedSlot(ds, i)
    ensures AllRows(s, i + 1) == Listed(ds, i + 1)
  {
  }

  /** A section that holds a list whose sizes fit can be dumped without leaving any table, and the dump
      shows exactly the entries of the list. */
  lemma {:induction false} DumpShowsList(s: seq<byte>, ds: Domains, i: nat)
    requires Shaped(ds) && SizesFit(ds) && Holds(s, ds) && i <= MAX_DOMAINS
    ensures Dumpable(s)
    ensures AllRows(s, i) == Listed(ds, i)
  {
    ListDumpable(s, ds);
    if i == 0 {
    } else {
      DumpShowsList(s, ds, i - 1);
      SlotRows(s, ds, i - 1);
      AllRowsStep(s, ds, i - 1);
    }
  }

  lemma AppendNothing(r: seq<Row>)
    ensures r + [] == r
  {
  }
}

/** The power-management generator: validate, assemble section by section, seal, pad. */
module PmTool {
  import opened Bytes
  import opened Layout
  import opened SealedImage
  import opened PmImage
  import FanTable
  import OppTable

  datatype Result = BadPvt | BadFan | BadGpio | BadOpp | NullDomain | Written(file: seq<byte>)

  function Nothing(timestamp: word): Inputs {
    Inputs(timestamp, None, None, None, None, None, None, None, None, None, None, None)
  }

  /** The structure in memory is that of the given sections. */
  ghost predicate Assembled(g: array<byte>, i: Inputs)
    reads g
  {
    InputsShaped(i) && g[..] == Flatten(Fields(i))
  }

  /** Moving on from i to j changes field k alone. */
  ghost predicate OnlyField(i: Inputs, j: Inputs, k: nat)
    requires InputsShaped(i) && InputsShaped(j)
  {
    k < FIELDS && forall m :: 0 <= m < FIELDS && m != k ==> Field(i, m) == Field(j, m)
  }

  method StoreNext(g: array<byte>, ghost i: Inputs, ghost j: Inputs, ghost k: nat, at: nat, d: seq<byte>)
    requires Assembled(g, i) && InputsShaped(j) && OnlyField(i, j, k)
    requires at == FieldOffset(k) && d == Field(j, k)
    modifies g
    ensures Assembled(g, j)
  {
    FieldsShaped(i);
    OffsetIs(k);
    StoreField(g, Fields(i), Sizes(), k, at, d);
    assert Fields(i)[k := d] == Fields(j);
  }

  ghost function VersionFields(timestamp: word): (segs: seq<seq<byte>>)
    ensures Shaped(segs, Sizes())
  {
    Filled(Sizes(), 0xFF)[0 := Le16(VERSION_MAJOR)][1 := Le16(VERSION_MINOR)][2 := Le32(timestamp)]
  }

  /** The structure set to 0xFF, with versions and timestamp. */
  method StoreVersion(g: array<byte>, timestamp: word)
    requires g.Length == IMAGE_SIZE
    modifies g
    ensures g[..] == Flatten(VersionFields(timestamp))
  {
    OffsetIs(FIELDS);
    FillStructure(g, Sizes(), 0xFF);
    ghost var segs := Filled(Sizes(), 0xFF);
    OffsetIs(0);
    StoreField(g, segs, Sizes(), 0, 0, Le16(VERSION_MAJOR));
    segs := segs[0 := Le16(VERSION_MAJOR)];
    OffsetIs(1);
    StoreField(g, segs, Sizes(), 1, 2, Le16(VERSION_MINOR));
    segs := segs[1 := Le16(VERSION_MINOR)];
    OffsetIs(2);
    StoreField(g, segs, Sizes(), 2, 4, Le32(timestamp));
  }

  /** Length, signature, and zeros for the two checksums. */
  method StoreIdentity(g: array<byte>, timestamp: word)
    requires g[..] == Flatten(VersionFields(timestamp))
    modifies g
    ensures Assembled(g, Nothing(timestamp))
  {
    ghost var segs := VersionFields(timestamp);
    OffsetIs(3);
    StoreField(g, segs, Sizes(), 3, 8, Le32(IMAGE_SIZE));
    segs := segs[3 := Le32(IMAGE_SIZE)];
    OffsetIs(4);
    StoreField(g, segs, Sizes(), 4, 12, Le32(SIGNATURE));
    segs := segs[4 := Le32(SIGNATURE)];
    OffsetIs(6);
    StoreField(g, segs, Sizes(), 6, 20, Le32(0));
    segs := segs[6 := Le32(0)];
    OffsetIs(5);
    StoreField(g, segs, Sizes(), 5, 16, Le32(0));
    segs := segs[5 := Le32(0)];
    forall k | 0 <= k < FIELDS
      ensures segs[k] == Field(Nothing(timestamp), k)
    {
    }
    assert segs == Fields(Nothing(timestamp));
  }

  /** Slot n: the structure, or zeros for a null pointer. */
  method StoreDomain(g: array<byte>, ghost i: Inputs, ghost ds: OppTable.Domains, n: nat, d: Option<OppTable.Domain>)
    requires n < |ds| && d == ds[n] && InputsShaped(i.(opp := Some(ds)))
    requires Assembled(g, i.(opp := Some(ds[..n])))
    modifies g
    ensures Assembled(g, i.(opp := Some(ds[..n + 1])))
  {
    ghost var before, after := i.(opp := Some(ds[..n])), i.(opp := Some(ds[..n + 1]));
    SlotsGrow(ds, n);
    assert InputsShaped(after);
    assert OnlyField(before, after, OPPS + n);
    if d.Some? {
      StoreNext(g, before, after, OPPS + n, 153 + 212 * n, OppTable.DomainBytes(d.value));
    } else {
      StoreNext(g, before, after, OPPS + n, 153 + 212 * n, Fill(212, 0));
    }
  }

  /** The section marked valid, then its slots one by one. */
  method StoreDomains(g: array<byte>, ghost i: Inputs, ds: OppTable.Domains)
    requires Assembled(g, i) && i.opp.None? && InputsShaped(i.(opp := Some(ds)))
    modifies g
    ensures Assembled(g, i.(opp := Some(ds)))
  {
    ghost var none := i.(opp := Some([]));
    assert OnlyField(i, none, OPP_VALID);
    StoreNext(g, i, none, OPP_VALID, 152, [0]);
    assert ds[..0] == [];
    for n := 0 to |ds|
      invariant Assembled(g, i.(opp := Some(ds[..n])))
    {
      StoreDomain(g, i, ds, n, ds[n]);
    }
    assert ds[..|ds|] == ds;
  }

  lemma SlotsGrow(ds: OppTable.Domains, n: nat)
    requires n < |ds| && OppTable.TablesFull(ds)
    ensures OppTable.TablesFull(ds[..n]) && OppTable.TablesFull(ds[..n + 1])
    ensures forall k: nat :: k != n ==> OppTable.SlotBytes(ds[..n], k) == OppTable.SlotBytes(ds[..n + 1], k)
  {
  }

  /** The plain sections, and the inputs with one of them set. */
  predicate IsPlain(k: nat) {
    k == PMIC || k == PVT || LOG <= k <= GPIO
  }

  function With(i: Inputs, k: nat, s: Option<seq<byte>>): Inputs
    requires IsPlain(k)
  {
    if k == PMIC then i.(pmic := s)
    else if k == PVT then i.(pvt := s)
    else if k == LOG then i.(log := s)
    else if k == VMIN then i.(vmin := s)
    else if k == NOC_IDLE then i.(nocIdle := s)
    else if k == SPT then i.(spt := s)
    else if k == WDT then i.(wdt := s)
    else if k == OPP_100M then i.(opp100M := s)
    else i.(gpio := s)
  }

  lemma WithShaped(i: Inputs, k: nat, s: Option<seq<byte>>)
    requires InputsShaped(i) && IsPlain(k) && Sized(s, FieldSize(k))
    ensures InputsShaped(With(i, k, s))
  {
    if k == PMIC {
      assert InputsShaped(i.(pmic := s));
    } else if k == PVT {
      assert InputsShaped(i.(pvt := s));
    } else if k == LOG {
      assert InputsShaped(i.(log := s));
    } else if k == VMIN {
      assert InputsShaped(i.(vmin := s));
    } else if k == NOC_IDLE {
      assert InputsShaped(i.(nocIdle := s));
    } else if k == SPT {
      assert InputsShaped(i.(spt := s));
    } else if k == WDT {
      assert InputsShaped(i.(wdt := s));
    } else if k == OPP_100M {
      assert InputsShaped(i.(opp100M := s));
    } else {
      assert InputsShaped(i.(gpio := s));
    }
  }

  lemma WithField(i: Inputs, k: nat, s: Option<seq<byte>>, m: nat)
    requires InputsShaped(i) && IsPlain(k) && InputsShaped(With(i, k, s)) && m < FIELDS
    ensures Field(With(i, k, s), m) == if m == k then Section(s, FieldSize(k)) else Field(i, m)
  {
    if k == PMIC {
    } else if k == PVT {
    } else if k == LOG {
    } else if k == VMIN {
    } else if k == NOC_IDLE {
    } else if k == SPT {
    } else if k == WDT {
    } else if k == OPP_100M {
    } else {
    }
  }

  lemma WithOnly(i: Inputs, k: nat, s: Option<seq<byte>>)
    requires InputsShaped(i) && IsPlain(k) && Sized(s, FieldSize(k))
    ensures InputsShaped(With(i, k, s)) && OnlyField(i, With(i, k, s), k)
    ensures Field(With(i, k, s), k) == Section(s, FieldSize(k))
  {
    WithShaped(i, k, s);
    var j := With(i, k, s);
    forall m | 0 <= m < FIELDS
      ensures m != k ==> Field(i, m) == Field(j, m)
    {
      WithField(i, k, s, m);
    }
    WithField(i, k, s, k);
  }

  /** A section copied over the background if it is switched on. */
  method CopySection(g: array<byte>, ghost i: Inputs, k: nat, at: nat, s: Option<seq<byte>>)
    requires Assembled(g, i) && IsPlain(k) && at == FieldOffset(k) && Sized(s, FieldSize(k))
    requires s.None? ==> With(i, k, s) == i
    modifies g
    ensures Assembled(g, With(i, k, s))
  {
    if s.Some? {
      WithOnly(i, k, s);
      StoreNext(g, i, With(i, k, s), k, at, s.value);
    }
  }

  method CopyFans(g: array<byte>, ghost i: Inputs, fans: Option<seq<FanTable.FanConfig>>)
    requires Assembled(g, i) && i.fan.None? && InputsShaped(i.(fan := fans))
    modifies g
    ensures Assembled(g, i.(fan := fans))
  {
    if fans.Some? {
      assert OnlyField(i, i.(fan := fans), FAN);
      StoreNext(g, i, i.(fan := fans), FAN, 2909, FanSection(fans.value));
    } else {
      assert i.(fan := fans) == i;
    }
  }

  /** The inputs as far as they are copied after their checks. */
  ghost function Checked(i: Inputs): Inputs {
    Nothing(i.timestamp).(pmic := i.pmic, pvt := i.pvt, fan := i.fan, gpio := i.gpio, opp := i.opp)
  }

  /** The sections that are copied without any check, in program order. */
  method CopyUnchecked(g: array<byte>, i: Inputs)
    requires InputsShaped(i) && Assembled(g, Checked(i))
    modifies g
    ensures Assembled(g, i)
  {
    ghost var a := Checked(i);
    CopySection(g, a, LOG, 3323, i.log);
    ghost var b := a.(log := i.log);
    CopySection(g, b, VMIN, 3331, i.vmin);
    ghost var c := b.(vmin := i.vmin);
    CopySection(g, c, NOC_IDLE, 3339, i.nocIdle);
    ghost var d := c.(nocIdle := i.nocIdle);
    CopySection(g, d, SPT, 3359, i.spt);
    ghost var e := d.(spt := i.spt);
    CopySection(g, e, WDT, 3399, i.wdt);
    ghost var f := e.(wdt := i.wdt);
    CopySection(g, f, OPP_100M, 3403, i.opp100M);
    assert f.(opp100M := i.opp100M) == i;
  }

  /** The validator reads the DSU's slot, so a configured list has to be long enough. */
  ghost predicate Ready(i: Inputs) {
    InputsShaped(i) && (i.opp.Some? ==> OppTable.Shaped(i.opp.value))
  }

  /** The generator: the first failing validator decides the error, and if all pass the file is
      the sealed structure of all sections. */
  method Generate(i: Inputs) returns (r: Result)
    requires Ready(i)
    ensures var pvtBad := i.pvt.Some? && !PvtOk(i.pvt.value);
            var fanBad := i.fan.Some? && !FanTable.AllFansOk(i.fan.value);
            var gpioBad := i.gpio.Some? && !GpioOk(i.gpio.value);
            var oppFaults := i.opp.Some? && exists n: nat :: OppTable.Faults(i.opp.value, n);
            var oppBad := i.opp.Some? && !OppTable.Acceptable(i.opp.value);
            && (r.BadPvt? <==> pvtBad)
            && (r.BadFan? <==> !pvtBad && fanBad)
            && (r.BadGpio? <==> !pvtBad && !fanBad && gpioBad)
            && (r.NullDomain? <==> !pvtBad && !fanBad && !gpioBad && oppFaults)
            && (r.BadOpp? <==> !pvtBad && !fanBad && !gpioBad && oppBad && !oppFaults)
            && (r.Written? <==> !pvtBad && !fanBad && !gpioBad && !oppBad)
    ensures r.Written? ==> r.file == File(i)
  {
    var g := new byte[IMAGE_SIZE];
    StoreVersion(g, i.timestamp);
    StoreIdentity(g, i.timestamp);
    ghost var a := Nothing(i.timestamp);
    CopySection(g, a, PMIC, 24, i.pmic);
    if i.pvt.Some? && !PvtOk(i.pvt.value) {
      return BadPvt;
    }
    ghost var b := a.(pmic := i.pmic);
    CopySection(g, b, PVT, 118, i.pvt);
    var fansBad := FanCheck(i);
    if fansBad {
      return BadFan;
    }
    ghost var c := b.(pvt := i.pvt);
    CopyFans(g, c, i.fan);
    if i.gpio.Some? && !GpioOk(i.gpio.value) {
      return BadGpio;
    }
    ghost var d := c.(fan := i.fan);
    CopySection(g, d, GPIO, 3407, i.gpio);
    var v := OppCheck(i);
    if v.NullDereference? {
      return NullDomain;
    }
    if v.Rejected? {
      return BadOpp;
    }
    r := Finish(g, i);
  }

  method OppCheck(i: Inputs) returns (v: OppTable.Verdict)
    requires Ready(i)
    ensures v.Accepted? <==> i.opp.None? || OppTable.Acceptable(i.opp.value)
    ensures v.NullDereference? <==> i.opp.Some? && exists n: nat :: OppTable.Faults(i.opp.value, n)
  {
    if i.opp.None? {
      return OppTable.Accepted;
    }
    v := OppTable.CheckOppTable(i.opp.value);
  }

  /** Everything after the last check. */
  method Finish(g: array<byte>, i: Inputs) returns (r: Result)
    requires InputsShaped(i) && Assembled(g, Checked(i).(opp := None))
    modifies g
    ensures r == Written(File(i))
  {
    if i.opp.Some? {
      StoreDomains(g, Checked(i).(opp := None), i.opp.value);
    }
    assert Assembled(g, Checked(i));
    CopyUnchecked(g, i);
    assert g[..] == Plain(i);
    StoreChecksums(g);
    r := Written(g[..] + Fill(BIN_SIZE - IMAGE_SIZE, 0xFF));
  }

  method FanCheck(i: Inputs) returns (bad: bool)
    requires InputsShaped(i)
    ensures bad <==> i.fan.Some? && !FanTable.AllFansOk(i.fan.value)
  {
    if i.fan.None? {
      return false;
    }
    var r := FanTable.CheckFanTable(i.fan.value);
    return r != 0;
  }
}

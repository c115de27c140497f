/** What the assembled power-management image contains, wherever it is read. */
module PmLaws {
  import opened Bytes
  import opened Layout
  import opened DoubleSum
  import opened SumDetection
  import opened SealedImage
  import opened PmImage
  import FanTable
  import OppTable

  predicate IsChecksum(k: nat) {
    k == 5 || k == 6
  }

  lemma OffsetsInside(k: nat)
    requires k < FIELDS
    ensures FieldOffset(k) + FieldSize(k) == FieldOffset(k + 1) <= IMAGE_SIZE
    ensures IsChecksum(k) || FieldOffset(k) + FieldSize(k) <= 16 || 24 <= FieldOffset(k)
  {
  }

  lemma PlainField(i: Inputs, k: nat)
    requires InputsShaped(i) && k < FIELDS
    ensures FieldOffset(k) + FieldSize(k) <= IMAGE_SIZE
    ensures Plain(i)[FieldOffset(k)..FieldOffset(k) + FieldSize(k)] == Field(i, k)
  {
    FieldsShaped(i);
    OffsetIs(k);
    FieldAt(Fields(i), Sizes(), k);
    OffsetsInside(k);
  }

  /** Sealing and padding leave every byte but the eight checksum bytes. */
  lemma SealedByte(s: seq<byte>, n: nat, b: nat)
    requires |s| >= 24 && b < |s| && !(16 <= b < 24)
    ensures (SealBytes(s) + Fill(n, 0xFF))[b] == s[b]
  {
  }

  /** Every section that is switched on is in the file verbatim, every other one is 0xFF, and
      nothing stored later has disturbed it; only the two checksum fields are set afterwards. */
  lemma FieldInFile(i: Inputs, k: nat)
    requires InputsShaped(i) && k < FIELDS && !IsChecksum(k)
    ensures FieldOffset(k) + FieldSize(k) <= IMAGE_SIZE
    ensures File(i)[FieldOffset(k)..FieldOffset(k) + FieldSize(k)] == Field(i, k)
  {
    PlainField(i, k);
    OffsetsInside(k);
    SliceKept(Plain(i), BIN_SIZE - IMAGE_SIZE, FieldOffset(k), FieldOffset(k) + FieldSize(k));
  }

  lemma SliceKept(s: seq<byte>, n: nat, a: nat, b: nat)
    requires 24 <= |s| && a <= b <= |s| && (b <= 16 || 24 <= a)
    ensures (SealBytes(s) + Fill(n, 0xFF))[a..b] == s[a..b]
  {
    var x, y := (SealBytes(s) + Fill(n, 0xFF))[a..b], s[a..b];
    forall m | 0 <= m < |x|
      ensures x[m] == y[m]
    {
      SealedByte(s, n, a + m);
    }
  }

  /** Behind the structure the file is 0xFF up to 4096 bytes. */
  lemma FileTail(i: Inputs)
    requires InputsShaped(i)
    ensures File(i)[IMAGE_SIZE..] == Fill(BIN_SIZE - IMAGE_SIZE, 0xFF)
  {
  }

  /** Every generated structure verifies in the intended way. */
  lemma GeneratedVerifies(i: Inputs)
    requires InputsShaped(i)
    ensures Verifies(Words(File(i)[..IMAGE_SIZE]))
  {
    var p := Plain(i);
    PlainField(i, 5);
    PlainField(i, 6);
    Le32RoundTrip(p, 16, 0);
    Le32RoundTrip(p, 20, 0);
    SealBytesSeals(p);
    assert File(i)[..IMAGE_SIZE] == SealBytes(p);
  }

  /** And is rejected after any change of two adjacent words, with the one exception that involves
      the word before the checksums. */
  lemma GeneratedTamper(i: Inputs, vs: seq<word>, n: nat)
    requires InputsShaped(i) && n + 1 < IMAGE_SIZE / 4
    requires SameExcept(Words(File(i)[..IMAGE_SIZE]), vs, n, n + 1)
    requires n + 1 != CRC1 && vs != Words(File(i)[..IMAGE_SIZE])
    ensures !Verifies(vs)
  {
    GeneratedVerifies(i);
    AdjacentTamper(Words(File(i)[..IMAGE_SIZE]), vs, n);
  }

  /** No such change is accepted that leaves the signature alone. */
  lemma SignedTamper(i: Inputs, vs: seq<word>, n: nat)
    requires InputsShaped(i) && n + 1 < IMAGE_SIZE / 4
    requires SameExcept(Words(File(i)[..IMAGE_SIZE]), vs, n, n + 1)
    requires vs[CRC1 - 1] == SIGNATURE && vs != Words(File(i)[..IMAGE_SIZE])
    ensures !Verifies(vs)
  {
    var ws := Words(File(i)[..IMAGE_SIZE]);
    GeneratedVerifies(i);
    FileHeader(i);
    Get32Agree(File(i), File(i)[..IMAGE_SIZE], 12);
    assert ws[3] == SIGNATURE;
    AdjacentTamper(ws, vs, n);
    PairAgrees(ws, vs, n);
    SmallDifference(vs[CRC1], ws[CRC1]);
  }

  /** The header words of the file. */
  lemma FileHeader(i: Inputs)
    requires InputsShaped(i)
    ensures Get16(File(i), 0) == VERSION_MAJOR && Get16(File(i), 2) == VERSION_MINOR
    ensures Get32(File(i), 4) == i.timestamp && Get32(File(i), 8) == IMAGE_SIZE && Get32(File(i), 12) == SIGNATURE
  {
    FieldInFile(i, 0);
    Le16RoundTrip(File(i), 0, VERSION_MAJOR);
    FieldInFile(i, 1);
    Le16RoundTrip(File(i), 2, VERSION_MINOR);
    FieldInFile(i, 2);
    Le32RoundTrip(File(i), 4, i.timestamp);
    FieldInFile(i, 3);
    Le32RoundTrip(File(i), 8, IMAGE_SIZE);
    FieldInFile(i, 4);
    Le32RoundTrip(File(i), 12, SIGNATURE);
  }

  // ----- absent sections -----

  lemma UnsetWord(s: seq<byte>, at: nat)
    requires at + 4 <= |s| && s[at..at + 4] == Fill(4, 0xFF)
    ensures Get32(s, at) == 0xFFFF_FFFF && !FanTable.IsValid(Get32(s, at))
  {
    var f := s[at..at + 4];
    assert s[at] == f[0] && s[at + 1] == f[1] && s[at + 2] == f[2] && s[at + 3] == f[3];
  }

  /** In a field that is 0xFF throughout, every 32-bit value decodes as invalid. */
  lemma UnsetField(i: Inputs, k: nat, at: nat)
    requires InputsShaped(i) && k < FIELDS && !IsChecksum(k) && at + 4 <= FieldSize(k)
    requires Field(i, k) == Fill(FieldSize(k), 0xFF)
    ensures FieldOffset(k) + at + 4 <= BIN_SIZE
    ensures !FanTable.IsValid(Get32(File(i), FieldOffset(k) + at))
  {
    FieldInFile(i, k);
    var o := FieldOffset(k) + at;
    var f, w := File(i)[FieldOffset(k)..FieldOffset(k) + FieldSize(k)], File(i)[o..o + 4];
    forall m | 0 <= m < 4
      ensures w[m] == 0xFF
    {
      assert w[m] == f[at + m];
    }
    assert w == Fill(4, 0xFF);
    UnsetWord(File(i), o);
  }

  /** Field k belongs to a section that is switched off. */
  predicate Absent(i: Inputs, k: nat) {
    || (k == PMIC && i.pmic.None?) || (k == PVT && i.pvt.None?)
    || (OPP_VALID <= k < FAN && i.opp.None?) || (k == FAN && i.fan.None?)
    || (k == LOG && i.log.None?) || (k == VMIN && i.vmin.None?) || (k == NOC_IDLE && i.nocIdle.None?)
    || (k == SPT && i.spt.None?) || (k == WDT && i.wdt.None?) || (k == OPP_100M && i.opp100M.None?)
    || (k == GPIO && i.gpio.None?)
  }

  lemma AbsentField(i: Inputs, k: nat)
    requires InputsShaped(i) && Absent(i, k)
    ensures k < FIELDS && !IsChecksum(k) && Field(i, k) == Fill(FieldSize(k), 0xFF)
  {
    if k == OPP_VALID {
      assert Field(i, k) == [0xFF];
      assert Fill(1, 0xFF) == [0xFF];
    }
  }

  /** So nothing in a switched-off section looks valid: no 32-bit value at any position in it. */
  lemma AbsentSection(i: Inputs, k: nat, at: nat)
    requires InputsShaped(i) && Absent(i, k) && at + 4 <= FieldSize(k)
    ensures FieldOffset(k) + at + 4 <= BIN_SIZE
    ensures !FanTable.IsValid(Get32(File(i), FieldOffset(k) + at))
  {
    AbsentField(i, k);
    UnsetField(i, k, at);
  }

  /** The validity byte of the opp section is zero if it is switched on, and 0xFF otherwise. */
  lemma OppValidByte(i: Inputs)
    requires InputsShaped(i)
    ensures File(i)[152] == if i.opp.Some? then 0 else 0xFF
  {
    FieldByte(i, OPP_VALID, 152);
  }

  // ----- locality -----

  /** Which field a byte of the structure belongs to. */
  lemma FieldOf(b: nat) returns (k: nat)
    requires b < IMAGE_SIZE
    ensures k < FIELDS && FieldOffset(k) <= b < FieldOffset(k) + FieldSize(k)
  {
    k := 0;
    while FieldOffset(k + 1) <= b
      invariant k < FIELDS && FieldOffset(k) <= b
      decreases FIELDS - k
    {
      OffsetsInside(k);
      k := k + 1;
    }
    OffsetsInside(k);
  }

  /** Two runs whose inputs agree in all fields but one write files that agree outside that field
      and the two checksums. */
  lemma OneSectionLocal(i: Inputs, j: Inputs, k: nat, b: nat)
    requires InputsShaped(i) && InputsShaped(j) && k < FIELDS && b < BIN_SIZE
    requires forall m :: 0 <= m < FIELDS && m != k ==> Field(i, m) == Field(j, m)
    requires !(16 <= b < 24) && !(FieldOffset(k) <= b < FieldOffset(k) + FieldSize(k))
    ensures File(i)[b] == File(j)[b]
  {
    if b < IMAGE_SIZE {
      var m := FieldOf(b);
      FieldByte(i, m, b);
      FieldByte(j, m, b);
    }
  }

  lemma FieldByte(i: Inputs, m: nat, b: nat)
    requires InputsShaped(i) && m < FIELDS && FieldOffset(m) <= b < FieldOffset(m) + FieldSize(m) && !(16 <= b < 24)
    ensures b < BIN_SIZE && File(i)[b] == Field(i, m)[b - FieldOffset(m)]
  {
    OffsetsInside(m);
    FieldInFile(i, m);
    assert File(i)[b] == File(i)[FieldOffset(m)..FieldOffset(m) + FieldSize(m)][b - FieldOffset(m)];
  }

  // ----- the fan section -----

  /** The structures of a list of fans lie one behind the other. */
  lemma {:induction false} FanAt(fans: seq<FanTable.FanConfig>, n: nat)
    requires FanTable.AllFansShaped(fans) && n < |fans|
    ensures FanSection(fans)[138 * n..138 * n + 138] == FanTable.FanBytes(fans[n])
  {
    var first, rest := FanTable.FanBytes(fans[0]), FanSection(fans[1..]);
    if n == 0 {
      assert (first + rest)[0..138] == first;
    } else {
      FanAt(fans[1..], n - 1);
      Behind(first, rest, 138 * (n - 1));
    }
  }

  lemma Behind(first: seq<byte>, rest: seq<byte>, o: nat)
    requires |first| == 138 && o + 138 <= |rest|
    ensures (first + rest)[o + 138..o + 276] == rest[o..o + 138]
  {
  }

  lemma FanSlice(i: Inputs, n: nat)
    requires InputsShaped(i) && i.fan.Some? && n < FanTable.MAX_FAN_NUM
    ensures File(i)[2909 + 138 * n..2909 + 138 * n + 138] == FanTable.FanBytes(i.fan.value[n])
  {
    FieldInFile(i, FAN);
    FanAt(i.fan.value, n);
    FanTable.ShiftedSlice(File(i), FanSection(i.fan.value), 2909, 138 * n, 138 * n + 138);
  }

  /** Every fan of the list is read back from its place in the file. */
  lemma FanInFile(i: Inputs, n: nat)
    requires InputsShaped(i) && i.fan.Some? && n < FanTable.MAX_FAN_NUM
    ensures FanTable.ReadFan(File(i), 2909 + 138 * n) == i.fan.value[n]
  {
    FanSlice(i, n);
    FanTable.FanRoundTrip(File(i), 2909 + 138 * n, i.fan.value[n]);
  }

  /** So row k of mode m of fan n is read from 2909 + 138*n + 10 + 36*m + 4*k. */
  lemma FanRowInFile(i: Inputs, n: nat, m: nat, k: nat)
    requires InputsShaped(i) && i.fan.Some? && n < FanTable.MAX_FAN_NUM
    requires m < FanTable.FAN_MODES && k < FanTable.MAX_ENTRIES
    ensures FanTable.ReadEntry(File(i), 2909 + 138 * n + 10 + 36 * m + 4 * k) == i.fan.value[n].tables[m][k]
  {
    FanSlice(i, n);
    FanTable.FanRow(i.fan.value[n], m, k);
    FanTable.ShiftedEntry(File(i), FanTable.FanBytes(i.fan.value[n]), 2909 + 138 * n, 10 + 36 * m + 4 * k);
  }

  // ----- the opp section -----

  /** The thirteen slots of the file. */
  function OppSection(f: seq<byte>): (s: seq<byte>)
    requires |f| == BIN_SIZE
    ensures |s| == OppTable.SECTION_SIZE
  {
    f[153..2909]
  }

  lemma SectionSlices(f: seq<byte>, at: nat)
    requires |f| == BIN_SIZE && at + OppTable.DOMAIN_SIZE <= OppTable.SECTION_SIZE
    ensures OppSection(f)[at..at + OppTable.DOMAIN_SIZE] == f[153 + at..153 + at + OppTable.DOMAIN_SIZE]
  {
    var x, y := OppSection(f)[at..at + OppTable.DOMAIN_SIZE], f[153 + at..153 + at + OppTable.DOMAIN_SIZE];
    forall m | 0 <= m < |x|
      ensures x[m] == y[m]
    {
    }
  }

  lemma SlotInSection(i: Inputs, n: nat)
    requires InputsShaped(i) && n < OppTable.MAX_DOMAINS
    ensures var at := OppTable.DomainAt(n);
            OppSection(File(i))[at..at + OppTable.DOMAIN_SIZE] == Field(i, OPPS + n)
  {
    FieldInFile(i, OPPS + n);
    SectionSlices(File(i), OppTable.DomainAt(n));
  }

  /** An accepted domain list is what the dump of the generated file shows, and the dump never
      reads behind an opp table. */
  lemma DumpOfGenerated(i: Inputs)
    requires InputsShaped(i) && i.opp.Some? && OppTable.Shaped(i.opp.value) && OppTable.Acceptable(i.opp.value)
    ensures OppTable.SizesFit(i.opp.value)
    ensures OppTable.Dumpable(OppSection(File(i)))
    ensures OppTable.AllRows(OppSection(File(i)), OppTable.MAX_DOMAINS)
            == OppTable.Listed(i.opp.value, OppTable.MAX_DOMAINS)
  {
    var s := OppSection(File(i));
    forall n | 0 <= n < OppTable.MAX_DOMAINS
      ensures s[OppTable.DomainAt(n)..OppTable.DomainAt(n) + OppTable.DOMAIN_SIZE] == OppTable.SlotBytes(i.opp.value, n)
    {
      SlotInSection(i, n);
    }
    assert OppTable.Holds(s, i.opp.value);
    OppTable.IndicesFit(i.opp.value);
    OppTable.DumpShowsList(s, i.opp.value, OppTable.MAX_DOMAINS);
  }

  /** So entry j of domain n is the row behind all entries of the domains before it, and there are no
      other rows. */
  lemma RowOfGenerated(i: Inputs, ds: OppTable.Domains, n: nat, j: nat, at: nat)
    requires InputsShaped(i) && i.opp == Some(ds) && OppTable.Shaped(ds) && OppTable.Acceptable(ds)
    requires n < |ds| && j < OppTable.Entries(ds, n) && at == OppTable.EntriesBefore(ds, n) + j
    ensures OppTable.Dumpable(OppSection(File(i))) && ds[n].Some? && j < |ds[n].value.table|
    ensures var rows := OppTable.AllRows(OppSection(File(i)), 13);
            && at < |rows| == OppTable.EntriesBefore(ds, 13)
            && rows[at] == OppTable.Row(n, j, j == ds[n].value.sustainedIdx, ds[n].value.table[j])
  {
    DumpOfGenerated(i);
    OppTable.ListedLength(ds, 13);
    OppTable.ListedAt(ds, 13, n, j, at);
  }

  /** With the opp section switched off the dump is safe as well, and empty. */
  lemma DumpOfAbsent(i: Inputs, n: nat)
    requires InputsShaped(i) && i.opp.None? && n <= OppTable.MAX_DOMAINS
    ensures OppTable.Dumpable(OppSection(File(i)))
    ensures OppTable.AllRows(OppSection(File(i)), n) == []
  {
    var s := OppSection(File(i));
    forall k | 0 <= k < OppTable.MAX_DOMAINS
      ensures Get16(s, OppTable.DomainAt(k)) == OppTable.SIZE_UNSET
    {
      SlotInSection(i, k);
      var at := OppTable.DomainAt(k);
      var slot := s[at..at + OppTable.DOMAIN_SIZE];
      assert s[at] == slot[0] && s[at + 1] == slot[1];
    }
    if n > 0 {
      DumpOfAbsent(i, n - 1);
      assert OppTable.DomainRows(s, n - 1, OppTable.Printed(s, n - 1)) == [];
    }
  }
}

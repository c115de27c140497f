/** The power-management file in numbers: what each configured section becomes, position by position. */
module PmFile {
  import opened Bytes
  import opened DoubleSum
  import opened SealedImage
  import opened PmImage
  import opened PmLaws
  import FanTable
  import OppTable

  lemma SectionSlice(i: Inputs, k: nat, lo: nat, hi: nat, s: Option<seq<byte>>)
    requires InputsShaped(i) && k < FIELDS && !IsChecksum(k)
    requires lo == FieldOffset(k) && hi == lo + FieldSize(k) && Field(i, k) == Section(s, FieldSize(k))
    ensures hi <= BIN_SIZE && (s.Some? ==> File(i)[lo..hi] == s.value)
  {
    FieldInFile(i, k);
  }

  lemma FrontSections(i: Inputs)
    requires InputsShaped(i)
    ensures i.pmic.Some? ==> File(i)[24..118] == i.pmic.value
    ensures i.pvt.Some? ==> File(i)[118..152] == i.pvt.value
    ensures i.log.Some? ==> File(i)[3323..3331] == i.log.value
  {
    SectionSlice(i, PMIC, 24, 118, i.pmic);
    SectionSlice(i, PVT, 118, 152, i.pvt);
    SectionSlice(i, LOG, 3323, 3331, i.log);
  }

  lemma MiddleSections(i: Inputs)
    requires InputsShaped(i)
    ensures i.vmin.Some? ==> File(i)[3331..3339] == i.vmin.value
    ensures i.nocIdle.Some? ==> File(i)[3339..3359] == i.nocIdle.value
    ensures i.spt.Some? ==> File(i)[3359..3399] == i.spt.value
  {
    SectionSlice(i, VMIN, 3331, 3339, i.vmin);
    SectionSlice(i, NOC_IDLE, 3339, 3359, i.nocIdle);
    SectionSlice(i, SPT, 3359, 3399, i.spt);
  }

  lemma BackSections(i: Inputs)
    requires InputsShaped(i)
    ensures i.wdt.Some? ==> File(i)[3399..3403] == i.wdt.value
    ensures i.opp100M.Some? ==> File(i)[3403..3407] == i.opp100M.value
    ensures i.gpio.Some? ==> File(i)[3407..3419] == i.gpio.value
  {
    SectionSlice(i, WDT, 3399, 3403, i.wdt);
    SectionSlice(i, OPP_100M, 3403, 3407, i.opp100M);
    SectionSlice(i, GPIO, 3407, 3419, i.gpio);
  }

  /** Every plain section that is switched on is in the file as it was configured. */
  lemma SectionsInFile(i: Inputs)
    requires InputsShaped(i)
    ensures i.pmic.Some? ==> File(i)[24..118] == i.pmic.value
    ensures i.pvt.Some? ==> File(i)[118..152] == i.pvt.value
    ensures i.log.Some? ==> File(i)[3323..3331] == i.log.value
    ensures i.vmin.Some? ==> File(i)[3331..3339] == i.vmin.value
    ensures i.nocIdle.Some? ==> File(i)[3339..3359] == i.nocIdle.value
    ensures i.spt.Some? ==> File(i)[3359..3399] == i.spt.value
    ensures i.wdt.Some? ==> File(i)[3399..3403] == i.wdt.value
    ensures i.opp100M.Some? ==> File(i)[3403..3407] == i.opp100M.value
    ensures i.gpio.Some? ==> File(i)[3407..3419] == i.gpio.value
  {
    FrontSections(i);
    MiddleSections(i);
    BackSections(i);
  }

  /** Bytes lo .. hi of the file are 0xFF. */
  ghost predicate Unset(f: seq<byte>, lo: nat, hi: nat) {
    hi <= |f| && forall b :: lo <= b < hi ==> f[b] == 0xFF
  }

  lemma UnsetSlice(i: Inputs, k: nat, lo: nat, hi: nat)
    requires InputsShaped(i) && k < FIELDS && !IsChecksum(k) && Field(i, k) == Fill(FieldSize(k), 0xFF)
    requires lo == FieldOffset(k) && hi == lo + FieldSize(k)
    ensures Unset(File(i), lo, hi)
  {
    FieldInFile(i, k);
    forall b | lo <= b < hi
      ensures File(i)[b] == 0xFF
    {
      assert File(i)[lo..hi][b - lo] == 0xFF;
    }
  }

  lemma AbsentSlice(i: Inputs, k: nat, lo: nat, hi: nat)
    requires InputsShaped(i) && lo == FieldOffset(k) && hi == lo + FieldSize(k)
    ensures Absent(i, k) ==> Unset(File(i), lo, hi)
  {
    if Absent(i, k) {
      AbsentField(i, k);
      UnsetSlice(i, k, lo, hi);
    }
  }

  /** Every section that is switched off is 0xFF throughout. */
  lemma AbsentInFile(i: Inputs)
    requires InputsShaped(i)
    ensures i.pmic.None? ==> Unset(File(i), 24, 118)
    ensures i.pvt.None? ==> Unset(File(i), 118, 152)
    ensures i.fan.None? ==> Unset(File(i), 2909, 3323)
    ensures i.log.None? ==> Unset(File(i), 3323, 3331)
    ensures i.vmin.None? ==> Unset(File(i), 3331, 3339)
    ensures i.nocIdle.None? ==> Unset(File(i), 3339, 3359)
    ensures i.spt.None? ==> Unset(File(i), 3359, 3399)
    ensures i.wdt.None? ==> Unset(File(i), 3399, 3403)
    ensures i.opp100M.None? ==> Unset(File(i), 3403, 3407)
    ensures i.gpio.None? ==> Unset(File(i), 3407, 3419)
  {
    AbsentSlice(i, PMIC, 24, 118);
    AbsentSlice(i, PVT, 118, 152);
    AbsentSlice(i, FAN, 2909, 3323);
    AbsentSlice(i, LOG, 3323, 3331);
    AbsentSlice(i, VMIN, 3331, 3339);
    AbsentSlice(i, NOC_IDLE, 3339, 3359);
    AbsentSlice(i, SPT, 3359, 3399);
    AbsentSlice(i, WDT, 3399, 3403);
    AbsentSlice(i, OPP_100M, 3403, 3407);
    AbsentSlice(i, GPIO, 3407, 3419);
  }

  lemma UnsetTail(f: seq<byte>)
    requires |f| == 4096 && Unset(f, 3419, 3532) && f[3532..] == Fill(564, 0xFF)
    ensures Unset(f, 3419, 4096)
  {
    forall b | 3532 <= b < 4096
      ensures f[b] == 0xFF
    {
      assert f[b] == f[3532..][b - 3532];
    }
  }

  /** So is all that belongs to no section. */
  lemma RestOfFile(i: Inputs)
    requires InputsShaped(i)
    ensures |File(i)| == 4096 && Unset(File(i), 3419, 4096)
  {
    UnsetSlice(i, 31, 3419, 3532);
    UnsetTail(File(i));
  }

  /** The header: version 3.1, the timestamp, the length and the signature. */
  lemma HeaderInFile(i: Inputs)
    requires InputsShaped(i)
    ensures Get16(File(i), 0) == 3 && Get16(File(i), 2) == 1 && Get32(File(i), 4) == i.timestamp
    ensures Get32(File(i), 8) == 3532 && Get32(File(i), 12) == 0x4643_4D50
  {
    FileHeader(i);
  }

  /** The two checksums are the plain and the weighted sum of the words of the structure modulo 2^32, taken
      while the checksums are zero. */
  lemma ChecksumsInFile(i: Inputs)
    requires InputsShaped(i)
    ensures var f := File(i);
            var ws := Words(f[..16] + [0, 0, 0, 0, 0, 0, 0, 0] + f[24..3532]);
            Get32(f, 16) == Sum(ws) % 0x1_0000_0000 && Get32(f, 20) == WeightedSum(ws) % 0x1_0000_0000
  {
    var f, p := File(i), Plain(i);
    ZeroedIsPlain(i);
    SealedWords(p);
    Get32Agree(f, SealBytes(p), 16);
    Get32Agree(f, SealBytes(p), 20);
  }

  lemma ZeroedIsPlain(i: Inputs)
    requires InputsShaped(i)
    ensures File(i)[..16] + [0, 0, 0, 0, 0, 0, 0, 0] + File(i)[24..3532] == Plain(i)
  {
    PlainField(i, 5);
    PlainField(i, 6);
    assert Le32(0) == [0, 0, 0, 0];
    ZeroedAgain(Plain(i), BIN_SIZE - IMAGE_SIZE, File(i));
  }

  lemma ZeroedAgain(p: seq<byte>, n: nat, f: seq<byte>)
    requires |p| == 3532 && p[16..20] == [0, 0, 0, 0] && p[20..24] == [0, 0, 0, 0]
    requires f == SealBytes(p) + Fill(n, 0xFF)
    ensures f[..16] + [0, 0, 0, 0, 0, 0, 0, 0] + f[24..3532] == p
  {
    var x := f[..16] + [0, 0, 0, 0, 0, 0, 0, 0] + f[24..3532];
    forall k | 0 <= k < 3532
      ensures x[k] == p[k]
    {
      if 16 <= k < 20 {
        assert p[k] == p[16..20][k - 16];
      } else if 20 <= k < 24 {
        assert p[k] == p[20..24][k - 20];
      } else {
        SealedByte(p, n, k);
      }
    }
  }

  // ----- the domains -----

  /** The bytes of slot n, which starts at byte 153 + 212*n. */
  lemma SlotByte(i: Inputs, n: nat, at: nat, b: nat)
    requires InputsShaped(i) && n < 13 && b < 212 && at == FieldOffset(OPPS + n) && FieldSize(OPPS + n) == 212
    ensures at + b < 4096 && File(i)[at + b] == Field(i, OPPS + n)[b]
  {
    OffsetsInside(OPPS + n);
    FieldByte(i, OPPS + n, at + b);
  }

  lemma SlotField(i: Inputs, n: nat, b: nat)
    requires InputsShaped(i) && n < 13 && b < 212 && FieldSize(OPPS + n) == 212
    ensures i.opp.None? || n >= |i.opp.value| ==> Field(i, OPPS + n)[b] == 0xFF
    ensures i.opp.Some? && n < |i.opp.value| && i.opp.value[n].None? ==> Field(i, OPPS + n)[b] == 0
  {
  }

  /** Without the section all slots are 0xFF. With it a null domain is 212 zeros, and the slots behind the
      end of the list are 0xFF. */
  lemma SlotsInFile(i: Inputs, n: nat, b: nat)
    requires InputsShaped(i) && n < 13 && b < 212
    ensures 153 + 212 * n + b < 4096
    ensures i.opp.None? || n >= |i.opp.value| ==> File(i)[153 + 212 * n + b] == 0xFF
    ensures i.opp.Some? && n < |i.opp.value| && i.opp.value[n].None? ==> File(i)[153 + 212 * n + b] == 0
  {
    SlotPlace(n);
    SlotField(i, n, b);
    SlotByte(i, n, 153 + 212 * n, b);
  }

  lemma SlotPlace(n: nat)
    requires n < 13
    ensures FieldOffset(OPPS + n) == 153 + 212 * n && FieldSize(OPPS + n) == 212
  {
  }

  lemma DomainField(i: Inputs, n: nat)
    requires InputsShaped(i) && i.opp.Some? && n < |i.opp.value| && i.opp.value[n].Some?
    ensures n < 13 && Field(i, OPPS + n) == OppTable.DomainBytes(i.opp.value[n].value)
  {
  }

  lemma SlotWhole(i: Inputs, n: nat)
    requires InputsShaped(i) && i.opp.Some? && n < |i.opp.value| && i.opp.value[n].Some?
    ensures 153 + 212 * n + 212 <= 4096
    ensures File(i)[153 + 212 * n..153 + 212 * n + 212] == OppTable.DomainBytes(i.opp.value[n].value)
  {
    DomainField(i, n);
    SlotPlace(n);
    FieldInFile(i, OPPS + n);
  }

  /** A domain of the list: size, sustained index, and entry j with its four words. */
  lemma DomainInFile(i: Inputs, n: nat, j: nat)
    requires InputsShaped(i) && i.opp.Some? && n < |i.opp.value| && i.opp.value[n].Some? && j < 13
    ensures var d, at := i.opp.value[n].value, 153 + 212 * n;
            && at + 212 <= 4096
            && Get16(File(i), at) == d.size && Get16(File(i), at + 2) == d.sustainedIdx
            && Get32(File(i), at + 4 + 16 * j) == d.table[j].level
            && Get32(File(i), at + 8 + 16 * j) == d.table[j].voltage
            && Get32(File(i), at + 12 + 16 * j) == d.table[j].frequency
            && Get32(File(i), at + 16 + 16 * j) == d.table[j].power
  {
    SlotWhole(i, n);
    OppTable.DomainReads(File(i), 153 + 212 * n, i.opp.value[n].value, j);
  }

  // ----- the fans -----

  /** The scalars of fan n. */
  lemma FanInNumbers(i: Inputs, n: nat)
    requires InputsShaped(i) && i.fan.Some? && n < 3
    ensures var f, at, s := i.fan.value[n], 2909 + 138 * n, File(i);
            && Get32(s, at) == f.fanValid
            && s[at + 4..at + 7] == f.tableValid && s[at + 7..at + 10] == f.tableItems
            && Get32(s, at + 118) == f.fanId && Get32(s, at + 122) == f.sensorId && Get32(s, at + 126) == f.polarity
            && Get32(s, at + 130) == f.scaleupMargin && Get32(s, at + 134) == f.pwmFreq
  {
    FanSlice(i, n);
    FanTable.ScalarsRead(File(i), 2909 + 138 * n, i.fan.value[n]);
  }

  lemma EntryInNumbers(s: seq<byte>, at: nat, e: FanTable.RpmEntry)
    requires at + 4 <= |s| && FanTable.ReadEntry(s, at) == e
    ensures Get16(s, at) == e.rpm && s[at + 2] == e.upTemp % 0x100 && s[at + 3] == e.downTemp % 0x100
  {
  }

  /** Row k of its table for mode m: the speed, then both temperatures in two's complement. */
  lemma FanRowInNumbers(i: Inputs, n: nat, m: nat, k: nat)
    requires InputsShaped(i) && i.fan.Some? && n < 3 && m < 3 && k < 9
    ensures var e, at := i.fan.value[n].tables[m][k], 2909 + 138 * n + 10 + 36 * m + 4 * k;
            && Get16(File(i), at) == e.rpm
            && File(i)[at + 2] == e.upTemp % 0x100
            && File(i)[at + 3] == e.downTemp % 0x100
  {
    FanRowInFile(i, n, m, k);
    EntryInNumbers(File(i), 2909 + 138 * n + 10 + 36 * m + 4 * k, i.fan.value[n].tables[m][k]);
  }
}

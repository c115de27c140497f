/** The power-management configuration image: optional sections over a 0xFF background. */
module PmImage {
  import opened Bytes
  import opened Layout
  import opened DoubleSum
  import opened SealedImage
  import FanTable
  import OppTable

  const BIN_SIZE := 4096
  const IMAGE_SIZE := 3532
  const SIGNATURE: word := 0x4643_4D50 // "PMCF", first letter lowest
  const VERSION_MAJOR := 3
  const VERSION_MINOR := 1

  /** The configured sections; a section that is switched off is absent. */
  datatype Inputs = Inputs(timestamp: word, pmic: Option<seq<byte>>, pvt: Option<seq<byte>>,
                           opp: Option<OppTable.Domains>, fan: Option<seq<FanTable.FanConfig>>,
                           log: Option<seq<byte>>, vmin: Option<seq<byte>>, nocIdle: Option<seq<byte>>,
                           spt: Option<seq<byte>>, wdt: Option<seq<byte>>, opp100M: Option<seq<byte>>,
                           gpio: Option<seq<byte>>)

  // ----- layout -----

  const FIELDS := 32
  const PMIC := 7
  const PVT := 8
  const OPP_VALID := 9
  const OPPS := 10
  const FAN := 23
  const LOG := 24
  const VMIN := 25
  const NOC_IDLE := 26
  const SPT := 27
  const WDT := 28
  const OPP_100M := 29
  const GPIO := 30

  /** Two version halves, timestamp, length, signature, two checksums, then the sections in
      structure order, the thirteen domains one by one, and reserved bytes with padding. */
  function FieldSize(k: nat): nat {
    if k < 2 then 2
    else if k < PMIC then 4
    else if k == PMIC then 94
    else if k == PVT then 34
    else if k == OPP_VALID then 1
    else if k < FAN then 212
    else if k == FAN then 414
    else if k == LOG || k == VMIN then 8
    else if k == NOC_IDLE then 20
    else if k == SPT then 40
    else if k == WDT || k == OPP_100M then 4
    else if k == GPIO then 12
    else 113
  }

  function Sizes(): (r: seq<nat>)
    ensures |r| == FIELDS && forall k :: 0 <= k < FIELDS ==> r[k] == FieldSize(k)
  {
    seq(FIELDS, k requires 0 <= k < FIELDS => FieldSize(k))
  }

  function FieldOffset(k: nat): nat {
    if k < 2 then 2 * k
    else if k <= PMIC then 4 * (k - 1)
    else if k == PVT then 118
    else if k == OPP_VALID then 152
    else if k <= FAN then 153 + 212 * (k - OPPS)
    else if k == LOG then 3323
    else if k == VMIN then 3331
    else if k == NOC_IDLE then 3339
    else if k == SPT then 3359
    else if k == WDT then 3399
    else if k == OPP_100M then 3403
    else if k == GPIO then 3407
    else if k == GPIO + 1 then 3419
    else IMAGE_SIZE
  }

  /** The fields lie one behind the other. */
  lemma FieldsFollow(k: nat)
    requires k < FIELDS
    ensures FieldOffset(k + 1) == FieldOffset(k) + FieldSize(k)
  {
  }

  lemma {:induction false} OffsetIs(k: nat)
    requires k <= FIELDS
    ensures Offset(Sizes(), k) == FieldOffset(k)
  {
    if k == 0 {
    } else {
      OffsetIs(k - 1);
      FieldsFollow(k - 1);
    }
  }

  // ----- contents -----

  function Section(s: Option<seq<byte>>, n: nat): seq<byte> {
    if s.Some? then s.value else Fill(n, 0xFF)
  }

  function FanSection(fans: seq<FanTable.FanConfig>): (r: seq<byte>)
    requires forall i :: 0 <= i < |fans| ==> FanTable.FanShaped(fans[i])
    ensures |r| == FanTable.FAN_SIZE * |fans|
  {
    if fans == [] then [] else FanTable.FanBytes(fans[0]) + FanSection(fans[1..])
  }

  predicate Sized(s: Option<seq<byte>>, n: nat) {
    s.Some? ==> |s.value| == n
  }

  /** Every section has the size of its structure, and the domain list fits its array. */
  ghost predicate InputsShaped(i: Inputs) {
    && Sized(i.pmic, 94) && Sized(i.pvt, 34) && Sized(i.log, 8) && Sized(i.vmin, 8) && Sized(i.nocIdle, 20)
    && Sized(i.spt, 40) && Sized(i.wdt, 4) && Sized(i.opp100M, 4) && Sized(i.gpio, 12)
    && (i.opp.Some? ==>
          |i.opp.value| <= OppTable.MAX_DOMAINS && OppTable.TablesFull(i.opp.value))
    && (i.fan.Some? ==> |i.fan.value| == FanTable.MAX_FAN_NUM && FanTable.AllFansShaped(i.fan.value))
  }

  /** Field k of the image before the checksums are stored. */
  function Field(i: Inputs, k: nat): (r: seq<byte>)
    requires InputsShaped(i) && k < FIELDS
    ensures |r| == FieldSize(k)
  {
    if k == 0 then Le16(VERSION_MAJOR)
    else if k == 1 then Le16(VERSION_MINOR)
    else if k == 2 then Le32(i.timestamp)
    else if k == 3 then Le32(IMAGE_SIZE)
    else if k == 4 then Le32(SIGNATURE)
    else if k < PMIC then Le32(0)
    else if k == PMIC then Section(i.pmic, 94)
    else if k == PVT then Section(i.pvt, 34)
    else if k == OPP_VALID then [if i.opp.Some? then 0 else 0xFF]
    else if k < FAN then
      if i.opp.Some? then OppTable.SlotBytes(i.opp.value, k - OPPS) else Fill(212, 0xFF)
    else if k == FAN then
      if i.fan.Some? then FanSection(i.fan.value) else Fill(414, 0xFF)
    else if k == LOG then Section(i.log, 8)
    else if k == VMIN then Section(i.vmin, 8)
    else if k == NOC_IDLE then Section(i.nocIdle, 20)
    else if k == SPT then Section(i.spt, 40)
    else if k == WDT then Section(i.wdt, 4)
    else if k == OPP_100M then Section(i.opp100M, 4)
    else if k == GPIO then Section(i.gpio, 12)
    else Fill(113, 0xFF)
  }

  function Fields(i: Inputs): (r: seq<seq<byte>>)
    requires InputsShaped(i)
    ensures |r| == FIELDS && forall k :: 0 <= k < FIELDS ==> r[k] == Field(i, k)
  {
    seq(FIELDS, k requires 0 <= k < FIELDS => Field(i, k))
  }

  lemma FieldsShaped(i: Inputs)
    requires InputsShaped(i)
    ensures Shaped(Fields(i), Sizes())
  {
  }

  function Plain(i: Inputs): (r: seq<byte>)
    requires InputsShaped(i)
    ensures |r| == IMAGE_SIZE
  {
    FieldsShaped(i);
    FlattenLength(Fields(i), Sizes());
    OffsetIs(FIELDS);
    Flatten(Fields(i))
  }

  /** Everything the generator writes: the sealed structure, and 0xFF up to 4096 bytes. */
  function File(i: Inputs): (r: seq<byte>)
    requires InputsShaped(i)
    ensures |r| == BIN_SIZE
  {
    SealBytes(Plain(i)) + Fill(BIN_SIZE - IMAGE_SIZE, 0xFF)
  }

  // ----- validators of the raw sections -----

  /** An external board sensor: a known connection with a register or bus number in range. */
  predicate SensorOk(s: seq<byte>, at: nat)
    requires at + 8 <= |s|
  {
    var v := Get32(s, at);
    FanTable.IsValid(v) ==>
      && FanTable.Raw(v) <= 1
      && (FanTable.Raw(v) == 0 ==> 0x10 <= Get32(s, at + 4) < 0x20)
      && (FanTable.Raw(v) == 1 ==> s[at + 4] <= 3)
  }

  predicate PvtOk(s: seq<byte>)
    requires |s| == 34
  {
    (s[4] == 0 ==> Sum(s[5..18]) == 1024) && SensorOk(s, 18) && SensorOk(s, 26)
  }

  predicate GpioOk(s: seq<byte>)
    requires |s| == 12
  {
    forall n :: 0 <= n < 3 ==>
      FanTable.IsValid(Get32(s, 4 * n)) ==> 1 <= FanTable.Raw(Get32(s, 4 * n)) < 4
  }

  // ----- the same in numbers -----

  /** The words a sensor may start with: odd ones, zero before a register from 16 to 31, and two before
      a bus number up to 3. */
  predicate SensorWord(s: seq<byte>, at: nat)
    requires at + 8 <= |s|
  {
    || Get32(s, at) % 2 == 1
    || (Get32(s, at) == 0 && 16 <= Get32(s, at + 4) <= 31)
    || (Get32(s, at) == 2 && s[at + 4] <= 3)
  }

  /** The thirteen weights add up to 1024 unless byte 4 switches them off, and both sensors are known. */
  lemma PvtInNumbers(s: seq<byte>)
    requires |s| == 34
    ensures PvtOk(s) <==>
            && (s[4] != 0 || s[5] as int + s[6] + s[7] + s[8] + s[9] + s[10] + s[11] + s[12] + s[13] + s[14] + s[15]
                             + s[16] + s[17] == 1024)
            && SensorWord(s, 18) && SensorWord(s, 26)
  {
    ThirteenBytes(s[5..18]);
  }

  lemma ThirteenBytes(w: seq<byte>)
    requires |w| == 13
    ensures Sum(w) == w[0] as int + w[1] + w[2] + w[3] + w[4] + w[5] + w[6] + w[7] + w[8] + w[9] + w[10] + w[11] + w[12]
  {
    var ws: seq<int> := w;
    ThreeBytes(ws, 0);
    ThreeBytes(ws, 3);
    ThreeBytes(ws, 6);
    ThreeBytes(ws, 9);
    Unfold(ws, 12);
    assert ws[0..] == ws && ws[13..] == [];
  }

  lemma ThreeBytes(ws: seq<int>, i: nat)
    requires i + 3 <= |ws|
    ensures Sum(ws[i..]) == ws[i] + ws[i + 1] + ws[i + 2] + Sum(ws[i + 3..])
  {
    Unfold(ws, i);
    Unfold(ws, i + 1);
    Unfold(ws, i + 2);
  }

  /** A word of the gpio section is odd or one of 2, 4 and 6. */
  lemma GpioInNumbers(s: seq<byte>)
    requires |s| == 12
    ensures GpioOk(s) <==>
            forall n :: 0 <= n < 3 ==>
              var w := Get32(s, 4 * n);
              w % 2 == 1 || w == 2 || w == 4 || w == 6
  {
    forall n | 0 <= n < 3
      ensures (FanTable.IsValid(Get32(s, 4 * n)) ==> 1 <= FanTable.Raw(Get32(s, 4 * n)) < 4) <==>
              var w := Get32(s, 4 * n);
              w % 2 == 1 || w == 2 || w == 4 || w == 6
    {
    }
  }
}

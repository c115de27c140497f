/** Fan tables of the power-management configuration, and their validator. */
module FanTable {
  import opened Bytes

  type int8 = x: int | -128 <= x < 128

  const MAX_FAN_NUM := 3
  const FAN_MODES := 3
  const MAX_ENTRIES := 9
  const PM_CONFIG_INVALID := 1

  /** config_data_t: bit 0 is clear when the value in the other 31 bits is valid. */
  predicate IsValid(data: word) {
    data % 2 == 0
  }

  function Raw(data: word): nat {
    data / 2
  }

  datatype RpmEntry = RpmEntry(rpm: half, upTemp: int8, downTemp: int8)

  datatype FanConfig = FanConfig(fanValid: word, tableValid: seq<byte>, tableItems: seq<byte>,
                                 tables: seq<seq<RpmEntry>>, fanId: word, sensorId: word,
                                 polarity: word, scaleupMargin: word, pwmFreq: word)

  /** The array sizes of the structure. */
  predicate FanShaped(f: FanConfig) {
    && |f.tableValid| == FAN_MODES && |f.tableItems| == FAN_MODES && |f.tables| == FAN_MODES
    && forall m :: 0 <= m < FAN_MODES ==> |f.tables[m]| == MAX_ENTRIES
  }

  predicate Below(a: RpmEntry, b: RpmEntry) {
    a.rpm < b.rpm && a.upTemp < b.upTemp && a.downTemp < b.downTemp
  }

  /** All three columns strictly increase between any two rows, neighbours or not. */
  ghost predicate Increasing(t: seq<RpmEntry>) {
    forall i, j :: 0 <= i < j < |t| ==> Below(t[i], t[j])
  }

  /** What acceptance of one mode table means. */
  ghost predicate TableOk(f: FanConfig, m: nat)
    requires FanShaped(f) && m < FAN_MODES
  {
    f.tableValid[m] != 1 ==> 2 <= f.tableItems[m] <= 9 && Increasing(f.tables[m][..f.tableItems[m]])
  }

  /** What acceptance of one fan means: its validity word is odd, or its id is odd or one of 0, 2 and 4
      and all three tables are right. */
  ghost predicate FanOk(f: FanConfig)
    requires FanShaped(f)
  {
    || f.fanValid % 2 == 1
    || (&& (f.fanId % 2 == 1 || f.fanId == 0 || f.fanId == 2 || f.fanId == 4)
        && forall m :: 0 <= m < 3 ==> TableOk(f, m))
  }

  ghost predicate AllFansShaped(fans: seq<FanConfig>) {
    forall i :: 0 <= i < |fans| ==> FanShaped(fans[i])
  }

  ghost predicate AllFansOk(fans: seq<FanConfig>)
    requires AllFansShaped(fans)
  {
    forall i :: 0 <= i < |fans| ==> FanOk(fans[i])
  }

  /** Only neighbouring rows are compared; that decides all pairs. */
  method CheckRpmTable(table: seq<RpmEntry>, num: nat) returns (r: int)
    requires num <= |table|
    ensures r == 0 || r == -1
    ensures r == 0 <==> Increasing(table[..num])
  {
    var i := 1;
    while i < num
      invariant 1 <= i && (i <= num || num == 0)
      invariant forall a, b :: 0 <= a < b < i && b < num ==> Below(table[a], table[b])
    {
      if table[i].rpm <= table[i - 1].rpm || table[i].upTemp <= table[i - 1].upTemp
         || table[i].downTemp <= table[i - 1].downTemp {
        assert !Below(table[..num][i - 1], table[..num][i]);
        return -1;
      }
      assert Below(table[i - 1], table[i]);
      i := i + 1;
    }
    return 0;
  }

  method CheckFan(f: FanConfig) returns (r: int)
    requires FanShaped(f) && IsValid(f.fanValid)
    ensures r == 0 || r == -1
    ensures r == 0 <==> FanOk(f)
  {
    if IsValid(f.fanId) && Raw(f.fanId) >= MAX_FAN_NUM {
      return -1;
    }
    for m := 0 to FAN_MODES
      invariant forall k :: 0 <= k < m ==> TableOk(f, k)
    {
      if f.tableValid[m] == PM_CONFIG_INVALID {
        continue;
      }
      if f.tableItems[m] < 2 || f.tableItems[m] > MAX_ENTRIES {
        assert !TableOk(f, m);
        return -1;
      }
      var bad := CheckRpmTable(f.tables[m], f.tableItems[m]);
      if bad != 0 {
        assert !TableOk(f, m);
        return -1;
      }
    }
    return 0;
  }

  /** Exact acceptance, for any number of fans. */
  method CheckFanTable(fans: seq<FanConfig>) returns (r: int)
    requires AllFansShaped(fans)
    ensures r == 0 || r == -1
    ensures r == 0 <==> forall i :: 0 <= i < |fans| ==> FanOk(fans[i])
  {
    for i := 0 to |fans|
      invariant forall k :: 0 <= k < i ==> FanOk(fans[k])
    {
      if !IsValid(fans[i].fanValid) {
        continue;
      }
      var bad := CheckFan(fans[i]);
      if bad != 0 {
        return -1;
      }
    }
    return 0;
  }

  lemma FansJoined(a: seq<FanConfig>, b: seq<FanConfig>)
    requires AllFansShaped(a) && AllFansShaped(b)
    ensures AllFansShaped(a + b)
    ensures AllFansOk(a + b) <==> AllFansOk(a) && AllFansOk(b)
  {
    if AllFansOk(a + b) {
      assert forall i :: 0 <= i < |a| ==> a[i] == (a + b)[i];
      assert forall i :: 0 <= i < |b| ==> b[i] == (a + b)[|a| + i];
    }
  }

  /** A fan whose validity word is odd never decides the result, whatever the rest of it holds. */
  lemma InvalidFanIgnored(before: seq<FanConfig>, f: FanConfig, after: seq<FanConfig>)
    requires AllFansShaped(before) && FanShaped(f) && AllFansShaped(after) && f.fanValid % 2 == 1
    ensures AllFansShaped(before + [f] + after) && AllFansShaped(before + after)
    ensures AllFansOk(before + [f] + after) <==> AllFansOk(before + after)
  {
    FansJoined(before, [f]);
    FansJoined(before + [f], after);
    FansJoined(before, after);
  }

  /** Of a fan that counts, an id of value 2*k is refused exactly from k = 3 on; an odd one never is. */
  lemma FanIdRule(f: FanConfig, id: word, k: nat)
    requires FanShaped(f) && f.fanValid % 2 == 0 && FanOk(f.(fanId := 1))
    ensures id % 2 == 1 ==> FanOk(f.(fanId := id))
    ensures id == 2 * k ==> (FanOk(f.(fanId := id)) <==> k < 3)
  {
    forall m | 0 <= m < 3
      ensures TableOk(f.(fanId := id), m)
    {
      assert TableOk(f.(fanId := 1), m);
    }
  }

  lemma NeighboursDecide(t: seq<RpmEntry>)
    ensures Increasing(t) <==>
            forall k :: 1 <= k < |t| ==>
              t[k - 1].rpm < t[k].rpm && t[k - 1].upTemp < t[k].upTemp && t[k - 1].downTemp < t[k].downTemp
  {
    if forall k :: 1 <= k < |t| ==> Below(t[k - 1], t[k]) {
      forall i, j | 0 <= i < j < |t|
        ensures Below(t[i], t[j])
      {
        RisesTo(t, i, j);
      }
    }
  }

  lemma {:induction false} RisesTo(t: seq<RpmEntry>, i: nat, j: nat)
    requires i < j < |t| && forall k :: 1 <= k < |t| ==> Below(t[k - 1], t[k])
    ensures Below(t[i], t[j])
    decreases j
  {
    if i + 1 == j {
      assert Below(t[j - 1], t[j]);
    } else {
      RisesTo(t, i, j - 1);
      assert Below(t[j - 1], t[j]);
    }
  }

  /** A table counts unless its mark is 1; then it has 2 to 9 rows, and every column rises from row to row. */
  ghost predicate Rises(f: FanConfig, m: nat)
    requires FanShaped(f) && m < 3
  {
    || f.tableValid[m] == 1
    || (&& 2 <= f.tableItems[m] <= 9
        && forall k :: 1 <= k < f.tableItems[m] ==>
             && f.tables[m][k - 1].rpm < f.tables[m][k].rpm
             && f.tables[m][k - 1].upTemp < f.tables[m][k].upTemp
             && f.tables[m][k - 1].downTemp < f.tables[m][k].downTemp)
  }

  lemma TableRule(f: FanConfig, m: nat)
    requires FanShaped(f) && m < 3
    ensures TableOk(f, m) <==> Rises(f, m)
  {
    if f.tableItems[m] <= 9 {
      var t := f.tables[m][..f.tableItems[m]];
      NeighboursDecide(t);
      assert forall k :: 0 <= k < |t| ==> t[k] == f.tables[m][k];
    }
  }

  /** Of a fan that counts: accepted exactly if its id is odd or below 6, and all three tables rise. */
  lemma FanRule(f: FanConfig)
    requires FanShaped(f) && f.fanValid % 2 == 0
    ensures FanOk(f) <==> (f.fanId % 2 == 1 || f.fanId < 6) && Rises(f, 0) && Rises(f, 1) && Rises(f, 2)
  {
    TableRule(f, 0);
    TableRule(f, 1);
    TableRule(f, 2);
  }

  // ----- the structure in memory -----

  function Int8Byte(x: int8): byte {
    if x < 0 then x + 0x100 else x
  }

  function EntryBytes(e: RpmEntry): (r: seq<byte>)
    ensures |r| == 4
  {
    Le16(e.rpm) + [Int8Byte(e.upTemp), Int8Byte(e.downTemp)]
  }

  function TableBytes(t: seq<RpmEntry>): (r: seq<byte>)
    ensures |r| == 4 * |t|
  {
    if t == [] then [] else EntryBytes(t[0]) + TableBytes(t[1..])
  }

  const FAN_SIZE := 138

  function FanFront(f: FanConfig): (r: seq<byte>)
    requires FanShaped(f)
    ensures |r| == 10
  {
    Le32(f.fanValid) + f.tableValid + f.tableItems
  }

  function FanBack(f: FanConfig): (r: seq<byte>)
    ensures |r| == 20
  {
    (Le32(f.fanId) + Le32(f.sensorId)) + (Le32(f.polarity) + Le32(f.scaleupMargin)) + Le32(f.pwmFreq)
  }

  function FanBytes(f: FanConfig): (r: seq<byte>)
    requires FanShaped(f)
    ensures |r| == FAN_SIZE
  {
    FanFront(f) + TableBytes(f.tables[0]) + TableBytes(f.tables[1]) + TableBytes(f.tables[2]) + FanBack(f)
  }

  function ByteInt8(b: byte): int8 {
    if b < 0x80 then b else b - 0x100
  }

  /** One row as the firmware reads it. */
  function ReadEntry(s: seq<byte>, at: nat): RpmEntry
    requires at + 4 <= |s|
  {
    RpmEntry(Get16(s, at), ByteInt8(s[at + 2]), ByteInt8(s[at + 3]))
  }

  lemma {:induction false} TableReads(t: seq<RpmEntry>, k: nat)
    requires k < |t|
    ensures ReadEntry(TableBytes(t), 4 * k) == t[k]
  {
    var s := TableBytes(t);
    if k == 0 {
      Le16RoundTrip(s, 0, t[0].rpm);
    } else {
      TableReads(t[1..], k - 1);
      var r := TableBytes(t[1..]);
      assert s == EntryBytes(t[0]) + r;
      assert s[4 * k] == r[4 * (k - 1)] && s[4 * k + 1] == r[4 * (k - 1) + 1];
      assert s[4 * k + 2] == r[4 * (k - 1) + 2] && s[4 * k + 3] == r[4 * (k - 1) + 3];
    }
  }

  lemma TableWithin(p: seq<byte>, t: seq<RpmEntry>, q: seq<byte>, k: nat)
    requires k < |t|
    ensures ReadEntry((p + TableBytes(t)) + q, |p| + 4 * k) == t[k]
  {
    TableReads(t, k);
    var s, b := (p + TableBytes(t)) + q, TableBytes(t);
    assert forall n :: 0 <= n < |b| ==> s[|p| + n] == b[n];
  }

  /** The three tables, each between what comes before and what comes after it. */
  lemma Regrouped(a: seq<byte>, t0: seq<byte>, t1: seq<byte>, t2: seq<byte>, b: seq<byte>)
    ensures a + t0 + t1 + t2 + b == (a + t0) + (t1 + t2 + b)
    ensures a + t0 + t1 + t2 + b == ((a + t0) + t1) + (t2 + b)
    ensures a + t0 + t1 + t2 + b == ((a + t0 + t1) + t2) + b
  {
  }

  /** Row k of mode m is found at offset 10 + 36*m + 4*k of a fan's structure. */
  lemma FanRow(f: FanConfig, m: nat, k: nat)
    requires FanShaped(f) && m < FAN_MODES && k < MAX_ENTRIES
    ensures ReadEntry(FanBytes(f), 10 + 36 * m + 4 * k) == f.tables[m][k]
  {
    var a, b := FanFront(f), FanBack(f);
    var t0, t1, t2 := TableBytes(f.tables[0]), TableBytes(f.tables[1]), TableBytes(f.tables[2]);
    Regrouped(a, t0, t1, t2, b);
    if m == 0 {
      TableWithin(a, f.tables[0], t1 + t2 + b, k);
    } else if m == 1 {
      TableWithin(a + t0, f.tables[1], t2 + b, k);
    } else {
      TableWithin(a + t0 + t1, f.tables[2], b, k);
    }
  }

  lemma FrontReads(f: FanConfig)
    requires FanShaped(f)
    ensures Get32(FanFront(f), 0) == f.fanValid
    ensures FanFront(f)[4..7] == f.tableValid && FanFront(f)[7..10] == f.tableItems
  {
    Le32RoundTrip(FanFront(f), 0, f.fanValid);
  }

  lemma BackReads(f: FanConfig)
    ensures var b := FanBack(f);
            && Get32(b, 0) == f.fanId && Get32(b, 4) == f.sensorId && Get32(b, 8) == f.polarity
            && Get32(b, 12) == f.scaleupMargin && Get32(b, 16) == f.pwmFreq
  {
    var b := FanBack(f);
    var w0, w1, w2, w3, w4 := Le32(f.fanId), Le32(f.sensorId), Le32(f.polarity), Le32(f.scaleupMargin), Le32(f.pwmFreq);
    FiveWords(w0, w1, w2, w3, w4);
    Le32RoundTrip(b, 0, f.fanId);
    Le32RoundTrip(b, 4, f.sensorId);
    Le32RoundTrip(b, 8, f.polarity);
    Le32RoundTrip(b, 12, f.scaleupMargin);
    Le32RoundTrip(b, 16, f.pwmFreq);
  }

  lemma FiveWords(a: seq<byte>, b: seq<byte>, c: seq<byte>, d: seq<byte>, e: seq<byte>)
    requires |a| == |b| == |c| == |d| == |e| == 4
    ensures var s := (a + b) + (c + d) + e;
            && s[0..4] == a && s[4..8] == b && s[8..12] == c && s[12..16] == d && s[16..20] == e
  {
    var s := (a + b) + (c + d) + e;
    forall i | 0 <= i < 4
      ensures s[i] == a[i] && s[4 + i] == b[i] && s[8 + i] == c[i] && s[12 + i] == d[i] && s[16 + i] == e[i]
    {
    }
    assert s[0..4] == a;
    assert s[4..8] == b;
    assert s[8..12] == c;
    assert s[12..16] == d;
    assert s[16..20] == e;
  }

  lemma ShiftedHalf(s: seq<byte>, t: seq<byte>, at: nat, o: nat)
    requires at + |t| <= |s| && s[at..at + |t|] == t && o + 2 <= |t|
    ensures Get16(s, at + o) == Get16(t, o)
  {
    var x := s[at..at + |t|];
    assert x[o] == s[at + o] && x[o + 1] == s[at + o + 1];
  }

  lemma ShiftedWord(s: seq<byte>, t: seq<byte>, at: nat, o: nat)
    requires at + |t| <= |s| && s[at..at + |t|] == t && o + 4 <= |t|
    ensures Get32(s, at + o) == Get32(t, o)
  {
    ShiftedHalf(s, t, at, o);
    ShiftedHalf(s, t, at, o + 2);
  }

  lemma ShiftedSlice(s: seq<byte>, t: seq<byte>, at: nat, lo: nat, hi: nat)
    requires at + |t| <= |s| && s[at..at + |t|] == t && lo <= hi <= |t|
    ensures s[at + lo..at + hi] == t[lo..hi]
  {
    var x, y := s[at + lo..at + hi], t[lo..hi];
    forall n | 0 <= n < |x|
      ensures x[n] == y[n]
    {
      assert s[at..at + |t|][lo + n] == t[lo + n];
    }
  }

  /** The scalar fields are found at their offsets. */
  lemma FanScalars(f: FanConfig)
    requires FanShaped(f)
    ensures var s := FanBytes(f);
            && Get32(s, 0) == f.fanValid
            && s[4..7] == f.tableValid && s[7..10] == f.tableItems
            && Get32(s, 118) == f.fanId && Get32(s, 122) == f.sensorId && Get32(s, 126) == f.polarity
            && Get32(s, 130) == f.scaleupMargin && Get32(s, 134) == f.pwmFreq
  {
    var s, a, b := FanBytes(f), FanFront(f), FanBack(f);
    FrontReads(f);
    BackReads(f);
    assert s[0..10] == a && s[118..138] == b;
    ShiftedWord(s, a, 0, 0);
    ShiftedSlice(s, a, 0, 4, 7);
    ShiftedSlice(s, a, 0, 7, 10);
    ShiftedWord(s, b, 118, 0);
    ShiftedWord(s, b, 118, 4);
    ShiftedWord(s, b, 118, 8);
    ShiftedWord(s, b, 118, 12);
    ShiftedWord(s, b, 118, 16);
  }

  /** A fan's structure as the firmware reads it from position at. */
  function ReadFan(s: seq<byte>, at: nat): FanConfig
    requires at + FAN_SIZE <= |s|
  {
    FanConfig(Get32(s, at), s[at + 4..at + 7], s[at + 7..at + 10],
              seq(FAN_MODES, m requires 0 <= m < FAN_MODES => ReadRows(s, at + 10 + 36 * m)),
              Get32(s, at + 118), Get32(s, at + 122), Get32(s, at + 126), Get32(s, at + 130), Get32(s, at + 134))
  }

  /** One mode table. */
  function ReadRows(s: seq<byte>, at: nat): (t: seq<RpmEntry>)
    requires at + 4 * MAX_ENTRIES <= |s|
  {
    seq(MAX_ENTRIES, k requires 0 <= k < MAX_ENTRIES => ReadEntry(s, at + 4 * k))
  }

  lemma ShiftedEntry(s: seq<byte>, t: seq<byte>, at: nat, o: nat)
    requires at + |t| <= |s| && s[at..at + |t|] == t && o + 4 <= |t|
    ensures ReadEntry(s, at + o) == ReadEntry(t, o)
  {
    var x := s[at..at + |t|];
    ShiftedHalf(s, t, at, o);
    assert x[o + 2] == s[at + o + 2] && x[o + 3] == s[at + o + 3];
  }

  lemma RowsRead(s: seq<byte>, at: nat, f: FanConfig, m: nat)
    requires FanShaped(f) && at + FAN_SIZE <= |s| && s[at..at + FAN_SIZE] == FanBytes(f) && m < FAN_MODES
    ensures ReadRows(s, at + 10 + 36 * m) == f.tables[m]
  {
    var x, y := ReadRows(s, at + 10 + 36 * m), f.tables[m];
    forall k | 0 <= k < MAX_ENTRIES
      ensures x[k] == y[k]
    {
      var o := 10 + 36 * m + 4 * k;
      FanRow(f, m, k);
      ShiftedEntry(s, FanBytes(f), at, o);
      assert x[k] == ReadEntry(s, at + o);
    }
  }

  /** Wherever a fan's structure lies, reading it gives the fan back: every row of every mode table,
      signed temperatures included, and every scalar. */
  lemma FanRoundTrip(s: seq<byte>, at: nat, f: FanConfig)
    requires FanShaped(f) && at + FAN_SIZE <= |s| && s[at..at + FAN_SIZE] == FanBytes(f)
    ensures ReadFan(s, at) == f
  {
    ScalarsRead(s, at, f);
    var x, y := ReadFan(s, at).tables, f.tables;
    forall m | 0 <= m < FAN_MODES
      ensures x[m] == y[m]
    {
      RowsRead(s, at, f, m);
    }
    assert x == y;
  }

  lemma ScalarsRead(s: seq<byte>, at: nat, f: FanConfig)
    requires FanShaped(f) && at + FAN_SIZE <= |s| && s[at..at + FAN_SIZE] == FanBytes(f)
    ensures Get32(s, at) == f.fanValid
    ensures s[at + 4..at + 7] == f.tableValid && s[at + 7..at + 10] == f.tableItems
    ensures Get32(s, at + 118) == f.fanId && Get32(s, at + 122) == f.sensorId && Get32(s, at + 126) == f.polarity
    ensures Get32(s, at + 130) == f.scaleupMargin && Get32(s, at + 134) == f.pwmFreq
  {
    var t := FanBytes(f);
    FanScalars(f);
    ShiftedWord(s, t, at, 0);
    ShiftedSlice(s, t, at, 4, 7);
    ShiftedSlice(s, t, at, 7, 10);
    ShiftedWord(s, t, at, 118);
    ShiftedWord(s, t, at, 122);
    ShiftedWord(s, t, at, 126);
    ShiftedWord(s, t, at, 130);
    ShiftedWord(s, t, at, 134);
  }
}

/** Any number of replacements, one after the other. */
module SubImageRuns {
  import opened Bytes
  import opened SubImage
  import opened SubImageEffect
  import opened SubImageLaws

  datatype Step = Step(imageType: int, payload: seq<byte>)

  /** The tool applied again and again, each time to its own output. */
  function Run(d: seq<byte>, steps: seq<Step>): Outcome {
    if steps == [] then Done(d)
    else
      var last := steps[|steps| - 1];
      match Run(d, steps[..|steps| - 1])
      case Done(f) => Replace(f, last.payload, last.imageType)
      case failed => failed
  }

  function LastPayload(steps: seq<Step>, t: int): Option<seq<byte>> {
    if steps == [] then None
    else if steps[|steps| - 1].imageType == t then Some(steps[|steps| - 1].payload)
    else LastPayload(steps[..|steps| - 1], t)
  }

  /** Records that some request can select: the first of each type. */
  ghost predicate Live(rs: seq<Record>, k: nat) {
    k < |rs| && Selects(rs, rs[k].imageType, k)
  }

  ghost predicate InRegion(r: Record, i: nat) {
    r.offset <= i < r.offset + r.size
  }

  ghost predicate Apart(r: Record, s: Record) {
    r.offset + r.size <= s.offset || s.offset + s.size <= r.offset
  }

  ghost predicate Placed(d: seq<byte>, h: nat, rs: seq<Record>, r: Record)
    requires |rs| > 0
  {
    r.offset + r.size <= |d| && Clear(h, rs, r.offset, r.offset + r.size)
  }

  /** A flash layout: the regions of all live records lie inside the file, clear of the magic and
      of the table, and apart from each other. */
  ghost predicate WellLaid(d: seq<byte>, h: nat, rs: seq<Record>) {
    && Parsed(d, h, rs)
    && (forall k: nat :: Live(rs, k) ==> Placed(d, h, rs, rs[k]))
    && (forall j: nat, k: nat :: Live(rs, j) && Live(rs, k) && j != k ==> Apart(rs[j], rs[k]))
  }

  /** Every step asks for a type of the table, with a payload that fits the original region. */
  ghost predicate Fitting(rs: seq<Record>, steps: seq<Step>) {
    forall n :: 0 <= n < |steps| ==>
      var k := FirstOfType(rs, steps[n].imageType);
      k < |rs| && |steps[n].payload| <= rs[k].size
  }

  // ----- the state after a run -----

  function RecordNow(rs: seq<Record>, steps: seq<Step>, k: nat): Record
    requires k < |rs|
  {
    var t := rs[k].imageType;
    match LastPayload(steps, t)
    case None => rs[k]
    case Some(p) =>
      if t != 0 && FirstOfType(rs, t) == k then rs[k].(size := |p|) else rs[k]
  }

  function TableNow(rs: seq<Record>, steps: seq<Step>): (r: seq<Record>)
    ensures |r| == |rs|
    ensures forall k :: 0 <= k < |rs| ==> r[k] == RecordNow(rs, steps, k)
  {
    seq(|rs|, k requires 0 <= k < |rs| => RecordNow(rs, steps, k))
  }

  /** A region holds its last payload followed by 0xFF, or what it held before. */
  ghost predicate RegionNow(d: seq<byte>, e: seq<byte>, r: Record, last: Option<seq<byte>>)
    requires r.offset + r.size <= |d| == |e|
  {
    forall i: nat :: InRegion(r, i) ==> e[i] == if last.Some? then RegionByte(r, last.value, i) else d[i]
  }

  /** A size field holds the length of the last payload. */
  ghost predicate FieldNow(e: seq<byte>, field: Option<nat>, last: Option<seq<byte>>) {
    field.Some? && last.Some? ==>
      && field.value + 4 <= |e| && |last.value| < M32
      && forall i: nat :: field.value <= i < field.value + 4 ==> e[i] == Le32(|last.value|)[i - field.value]
  }

  /** Position i belongs to a record that some step replaced. */
  ghost predicate Reached(h: nat, rs: seq<Record>, steps: seq<Step>, k: nat, i: nat) {
    && Live(rs, k) && LastPayload(steps, rs[k].imageType).Some?
    && (InRegion(rs[k], i) || InField(PatchedField(h, rs[k].imageType, k), i))
  }

  ghost predicate OutsideNow(d: seq<byte>, e: seq<byte>, h: nat, rs: seq<Record>, steps: seq<Step>)
    requires |d| == |e|
  {
    forall i: nat :: i < |d| && e[i] != d[i] ==> exists k: nat :: Reached(h, rs, steps, k, i)
  }

  /** e is what a run of these steps should make of d. */
  ghost predicate After(d: seq<byte>, e: seq<byte>, h: nat, rs: seq<Record>, steps: seq<Step>)
    requires WellLaid(d, h, rs)
  {
    && |e| == |d|
    && Parsed(e, h, TableNow(rs, steps))
    && (forall k: nat :: Live(rs, k) ==> RegionNow(d, e, rs[k], LastPayload(steps, rs[k].imageType)))
    && (forall k: nat :: Live(rs, k) ==>
          FieldNow(e, PatchedField(h, rs[k].imageType, k), LastPayload(steps, rs[k].imageType)))
    && OutsideNow(d, e, h, rs, steps)
  }

  // ----- one step -----

  lemma StepTable(rs: seq<Record>, steps: seq<Step>, s: Step, k: nat)
    requires Selects(rs, s.imageType, k)
    ensures TableAfter(TableNow(rs, steps), s.imageType, k, |s.payload|) == TableNow(rs, steps + [s])
    ensures TableNow(rs, steps)[k].offset == rs[k].offset
  {
    var all := steps + [s];
    assert all[..|all| - 1] == steps;
    var x, y := TableAfter(TableNow(rs, steps), s.imageType, k, |s.payload|), TableNow(rs, all);
    forall i | 0 <= i < |rs|
      ensures x[i] == y[i]
    {
    }
  }

  /** The size a step finds is that of the last payload, or the original one. */
  lemma SizeNow(rs: seq<Record>, steps: seq<Step>, t: int, k: nat)
    requires Selects(rs, t, k) && Fitting(rs, steps)
    ensures RecordNow(rs, steps, k).size <= rs[k].size
    ensures LastPayload(steps, t).Some? ==> |LastPayload(steps, t).value| <= rs[k].size
    ensures RecordNow(rs, steps, k).size ==
            if t != 0 && LastPayload(steps, t).Some? then |LastPayload(steps, t).value| else rs[k].size
  {
    LastFits(rs, steps, t, k);
  }

  lemma {:induction false} LastFits(rs: seq<Record>, steps: seq<Step>, t: int, k: nat)
    requires Selects(rs, t, k) && Fitting(rs, steps)
    ensures LastPayload(steps, t).Some? ==> |LastPayload(steps, t).value| <= rs[k].size
  {
    if steps == [] {
    } else {
      var n := |steps| - 1;
      assert FirstOfType(rs, steps[n].imageType) < |rs|;
      if steps[n].imageType != t {
        FittingPrefix(rs, steps);
        LastFits(rs, steps[..n], t, k);
      }
    }
  }

  lemma FittingPrefix(rs: seq<Record>, steps: seq<Step>)
    requires Fitting(rs, steps) && steps != []
    ensures Fitting(rs, steps[..|steps| - 1])
  {
    var init := steps[..|steps| - 1];
    forall n | 0 <= n < |init|
      ensures var k := FirstOfType(rs, init[n].imageType); k < |rs| && |init[n].payload| <= rs[k].size
    {
      assert init[n] == steps[n];
    }
  }

  lemma TypesNow(rs: seq<Record>, steps: seq<Step>, t: int, k: nat)
    requires Selects(rs, t, k)
    ensures Selects(TableNow(rs, steps), t, k)
  {
    FirstOfTypeUnique(TableNow(rs, steps), t, k);
  }

  /** In the replaced region: payload, then 0xFF from this step or from the one before. */
  lemma StepRegion(d: seq<byte>, c: seq<byte>, e: seq<byte>, r: Record, now: Record, t: int,
                   last: Option<seq<byte>>, payload: seq<byte>, field: Option<nat>)
    requires r.offset + r.size <= |d| == |c| == |e| && RegionNow(d, c, r, last)
    requires now.offset == r.offset && now.size <= r.size && |payload| <= r.size
    requires now.size == if t != 0 && last.Some? then |last.value| else r.size
    requires Effect(c, e, now, payload, field) && FieldApart(field, r, 0)
    ensures RegionNow(d, e, r, Some(payload))
  {
    forall i: nat | InRegion(r, i)
      ensures e[i] == RegionByte(r, payload, i)
    {
      assert e[i] == OutByte(c, now, payload, field, i);
    }
  }

  /** Bytes a step does not reach keep their value. */
  lemma StepElsewhere(c: seq<byte>, e: seq<byte>, r: Record, now: Record, payload: seq<byte>,
                      field: Option<nat>, i: nat)
    requires Effect(c, e, now, payload, field) && i < |c|
    requires now.offset == r.offset && now.size <= r.size && |payload| <= r.size
    requires !InRegion(r, i) && !InField(field, i)
    ensures e[i] == c[i]
  {
    assert e[i] == OutByte(c, now, payload, field, i);
  }

  lemma StepLength(n: nat, r: Record, now: Record, p: nat)
    requires now.offset == r.offset && now.size <= r.size && p <= r.size && r.offset + r.size <= n
    ensures OutLength(n, now, p) == n
  {
  }

  lemma LastAppend(steps: seq<Step>, s: Step, t: int)
    ensures LastPayload(steps + [s], t) == if s.imageType == t then Some(s.payload) else LastPayload(steps, t)
  {
    var all := steps + [s];
    assert all[..|all| - 1] == steps;
  }

  /** One step of a run: what it finds, what it is asked for, and what it writes. */
  ghost predicate StepTaken(d: seq<byte>, c: seq<byte>, e: seq<byte>, h: nat, rs: seq<Record>,
                            steps: seq<Step>, s: Step, k: nat)
  {
    && WellLaid(d, h, rs) && After(d, c, h, rs, steps) && Fitting(rs, steps)
    && Selects(rs, s.imageType, k) && Live(rs, k) && |s.payload| <= rs[k].size
    && Effect(c, e, RecordNow(rs, steps, k), s.payload, PatchedField(h, s.imageType, k))
    && |e| == |d|
  }

  lemma FieldPlace(d: seq<byte>, h: nat, rs: seq<Record>, m: nat, k: nat)
    requires WellLaid(d, h, rs) && Live(rs, m) && Live(rs, k)
    ensures FieldApart(PatchedField(h, rs[m].imageType, m), rs[k], 0)
    ensures m != k ==> FieldsApart(PatchedField(h, rs[m].imageType, m), PatchedField(h, rs[k].imageType, k))
    ensures PatchedField(h, rs[m].imageType, m).Some? ==> PatchedField(h, rs[m].imageType, m).value + 4 <= |d|
  {
    if rs[m].imageType != 0 {
      SelectedStored(d, h, rs, rs[m].imageType, m);
    }
  }

  lemma RegionAfterStep(d: seq<byte>, c: seq<byte>, e: seq<byte>, h: nat, rs: seq<Record>,
                        steps: seq<Step>, s: Step, k: nat, m: nat)
    requires StepTaken(d, c, e, h, rs, steps, s, k) && Live(rs, m)
    ensures RegionNow(d, e, rs[m], LastPayload(steps + [s], rs[m].imageType))
  {
    var r, now, field := rs[k], RecordNow(rs, steps, k), PatchedField(h, s.imageType, k);
    var t := rs[m].imageType;
    LastAppend(steps, s, t);
    SizeNow(rs, steps, s.imageType, k);
    FieldPlace(d, h, rs, k, m);
    assert RegionNow(d, c, rs[m], LastPayload(steps, t));
    if m == k {
      StepRegion(d, c, e, r, now, t, LastPayload(steps, t), s.payload, field);
    } else {
      assert Apart(rs[m], rs[k]);
      forall i: nat | InRegion(rs[m], i)
        ensures e[i] == c[i]
      {
        StepElsewhere(c, e, r, now, s.payload, field, i);
      }
    }
  }

  /** The patched field itself. */
  lemma OwnField(c: seq<byte>, e: seq<byte>, now: Record, payload: seq<byte>, field: Option<nat>)
    requires Effect(c, e, now, payload, field)
    ensures FieldNow(e, field, Some(payload))
  {
    if field.Some? {
      forall i: nat | field.value <= i < field.value + 4
        ensures e[i] == Le32(|payload|)[i - field.value]
      {
        assert e[i] == OutByte(c, now, payload, field, i);
      }
    }
  }

  /** A field the step does not touch. */
  lemma OtherField(c: seq<byte>, e: seq<byte>, r: Record, now: Record, payload: seq<byte>, field: Option<nat>,
                   mine: Option<nat>, last: Option<seq<byte>>)
    requires Effect(c, e, now, payload, field) && FieldNow(c, mine, last)
    requires now.offset == r.offset && now.size <= r.size && |payload| <= r.size
    requires FieldApart(mine, r, 0) && FieldsApart(mine, field)
    ensures FieldNow(e, mine, last)
  {
    if mine.Some? && last.Some? {
      forall i: nat | mine.value <= i < mine.value + 4
        ensures e[i] == c[i]
      {
        StepElsewhere(c, e, r, now, payload, field, i);
      }
    }
  }

  lemma FieldAfterStep(d: seq<byte>, c: seq<byte>, e: seq<byte>, h: nat, rs: seq<Record>,
                       steps: seq<Step>, s: Step, k: nat, m: nat)
    requires StepTaken(d, c, e, h, rs, steps, s, k) && Live(rs, m)
    ensures FieldNow(e, PatchedField(h, rs[m].imageType, m), LastPayload(steps + [s], rs[m].imageType))
  {
    var now, field := RecordNow(rs, steps, k), PatchedField(h, s.imageType, k);
    LastAppend(steps, s, rs[m].imageType);
    if m == k {
      OwnField(c, e, now, s.payload, field);
    } else {
      SizeNow(rs, steps, s.imageType, k);
      FieldPlace(d, h, rs, m, k);
      OtherField(c, e, rs[k], now, s.payload, field,
                 PatchedField(h, rs[m].imageType, m), LastPayload(steps, rs[m].imageType));
    }
  }

  lemma OutsideAfterStep(d: seq<byte>, c: seq<byte>, e: seq<byte>, h: nat, rs: seq<Record>,
                         steps: seq<Step>, s: Step, k: nat)
    requires StepTaken(d, c, e, h, rs, steps, s, k)
    ensures OutsideNow(d, e, h, rs, steps + [s])
  {
    var r, now, field := rs[k], RecordNow(rs, steps, k), PatchedField(h, s.imageType, k);
    SizeNow(rs, steps, s.imageType, k);
    forall i: nat | i < |d| && e[i] != d[i]
      ensures exists m: nat :: Reached(h, rs, steps + [s], m, i)
    {
      if InRegion(r, i) || InField(field, i) {
        LastAppend(steps, s, s.imageType);
        assert Reached(h, rs, steps + [s], k, i);
      } else {
        StepElsewhere(c, e, r, now, s.payload, field, i);
        var m: nat :| Reached(h, rs, steps, m, i);
        LastAppend(steps, s, rs[m].imageType);
        assert Reached(h, rs, steps + [s], m, i);
      }
    }
  }

  lemma StepAfter(d: seq<byte>, c: seq<byte>, e: seq<byte>, h: nat, rs: seq<Record>,
                  steps: seq<Step>, s: Step, k: nat)
    requires StepTaken(d, c, e, h, rs, steps, s, k)
    requires Parsed(e, h, TableNow(rs, steps + [s]))
    ensures After(d, e, h, rs, steps + [s])
  {
    forall m: nat | Live(rs, m)
      ensures RegionNow(d, e, rs[m], LastPayload(steps + [s], rs[m].imageType))
      ensures FieldNow(e, PatchedField(h, rs[m].imageType, m), LastPayload(steps + [s], rs[m].imageType))
    {
      RegionAfterStep(d, c, e, h, rs, steps, s, k, m);
      FieldAfterStep(d, c, e, h, rs, steps, s, k, m);
    }
    OutsideAfterStep(d, c, e, h, rs, steps, s, k);
  }

  lemma ClearNow(h: nat, rs: seq<Record>, steps: seq<Step>, k: nat, n: nat)
    requires k < |rs| && Clear(h, rs, rs[k].offset, rs[k].offset + rs[k].size)
    requires RecordNow(rs, steps, k).size <= rs[k].size && n <= rs[k].size
    ensures Clear(h, TableNow(rs, steps), rs[k].offset, WriteEnd(RecordNow(rs, steps, k), n))
    ensures RecordNow(rs, steps, k).offset == rs[k].offset
  {
  }

  lemma RunStep(d: seq<byte>, c: seq<byte>, h: nat, rs: seq<Record>, steps: seq<Step>, s: Step, k: nat)
    requires WellLaid(d, h, rs) && After(d, c, h, rs, steps) && Fitting(rs, steps)
    requires Selects(rs, s.imageType, k) && |s.payload| <= rs[k].size
    ensures Replace(c, s.payload, s.imageType).Done?
    ensures After(d, Replace(c, s.payload, s.imageType).file, h, rs, steps + [s])
  {
    var table, now := TableNow(rs, steps), RecordNow(rs, steps, k);
    assert Live(rs, k);
    SizesSmall(d, h, rs, k);
    SizeNow(rs, steps, s.imageType, k);
    TypesNow(rs, steps, s.imageType, k);
    ClearNow(h, rs, steps, k, |s.payload|);
    Reparse(c, s.payload, s.imageType, h, table, k);
    ReplaceEffect(c, s.payload, s.imageType, h, table, k);
    StepTable(rs, steps, s, k);
    StepLength(|d|, rs[k], now, |s.payload|);
    StepAfter(d, c, Replace(c, s.payload, s.imageType).file, h, rs, steps, s, k);
  }

  lemma RunStart(d: seq<byte>, h: nat, rs: seq<Record>)
    requires WellLaid(d, h, rs)
    ensures After(d, d, h, rs, [])
  {
    assert TableNow(rs, []) == rs;
  }

  lemma RunExtend(d: seq<byte>, h: nat, rs: seq<Record>, init: seq<Step>, s: Step)
    requires WellLaid(d, h, rs) && Fitting(rs, init + [s])
    requires Run(d, init).Done? && After(d, Run(d, init).file, h, rs, init)
    ensures Run(d, init + [s]).Done?
    ensures After(d, Run(d, init + [s]).file, h, rs, init + [s])
  {
    var steps := init + [s];
    FittingPrefix(rs, steps);
    assert steps[..|steps| - 1] == init && steps[|steps| - 1] == s;
    var k := FirstOfType(rs, steps[|init|].imageType);
    assert Selects(rs, s.imageType, k) && |s.payload| <= rs[k].size;
    var c := Run(d, init).file;
    RunStep(d, c, h, rs, init, s, k);
    assert Run(d, steps) == Replace(c, s.payload, s.imageType);
  }

  /** After any run of fitting replacements on a well-laid image: every step succeeded, the header
      is where it was, each live region holds its last payload followed by 0xFF up to its original
      size, each size field and record tells that payload's length, and nothing else changed. */
  lemma {:induction false} RunResult(d: seq<byte>, h: nat, rs: seq<Record>, steps: seq<Step>)
    requires WellLaid(d, h, rs) && Fitting(rs, steps)
    ensures Run(d, steps).Done?
    ensures After(d, Run(d, steps).file, h, rs, steps)
  {
    if steps == [] {
      RunStart(d, h, rs);
    } else {
      var init, s := steps[..|steps| - 1], steps[|steps| - 1];
      assert steps == init + [s];
      FittingPrefix(rs, steps);
      RunResult(d, h, rs, init);
      RunExtend(d, h, rs, init, s);
    }
  }

  // ----- what a run depends on -----

  /** The description of the result leaves no choice. */
  lemma AfterUnique(d: seq<byte>, e: seq<byte>, f: seq<byte>, h: nat, rs: seq<Record>,
                    steps: seq<Step>, others: seq<Step>)
    requires WellLaid(d, h, rs) && After(d, e, h, rs, steps) && After(d, f, h, rs, others)
    requires forall t: int :: LastPayload(steps, t) == LastPayload(others, t)
    ensures e == f
  {
    forall i: nat | i < |d|
      ensures e[i] == f[i]
    {
      if e[i] != d[i] {
        var k: nat :| Reached(h, rs, steps, k, i);
        SameWhereReached(d, e, f, h, rs, steps, others, k, i);
      } else if f[i] != d[i] {
        var k: nat :| Reached(h, rs, others, k, i);
        SameWhereReached(d, e, f, h, rs, steps, others, k, i);
      }
    }
  }

  lemma SameWhereReached(d: seq<byte>, e: seq<byte>, f: seq<byte>, h: nat, rs: seq<Record>,
                         steps: seq<Step>, others: seq<Step>, k: nat, i: nat)
    requires WellLaid(d, h, rs) && After(d, e, h, rs, steps) && After(d, f, h, rs, others)
    requires Live(rs, k) && i < |d| && LastPayload(steps, rs[k].imageType) == LastPayload(others, rs[k].imageType)
    requires Reached(h, rs, steps, k, i)
    ensures e[i] == f[i]
  {
    var last, field := LastPayload(steps, rs[k].imageType), PatchedField(h, rs[k].imageType, k);
    assert RegionNow(d, e, rs[k], last) && RegionNow(d, f, rs[k], last);
    assert FieldNow(e, field, last) && FieldNow(f, field, last);
  }

  /** A run's output depends on nothing but the last payload of each type: superseded steps can
      be dropped and steps of different types reordered at will. */
  lemma RunDependsOnLast(d: seq<byte>, h: nat, rs: seq<Record>, steps: seq<Step>, others: seq<Step>)
    requires WellLaid(d, h, rs) && Fitting(rs, steps) && Fitting(rs, others)
    requires forall t: int :: LastPayload(steps, t) == LastPayload(others, t)
    ensures Run(d, steps) == Run(d, others)
  {
    RunResult(d, h, rs, steps);
    RunResult(d, h, rs, others);
    AfterUnique(d, Run(d, steps).file, Run(d, others).file, h, rs, steps, others);
  }
}

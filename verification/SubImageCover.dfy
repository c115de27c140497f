/** Runs of replacements with payloads of any length, as long as no step writes over the table. */
module SubImageCover {
  import opened Bytes
  import opened BinaryFile
  import opened SubImage
  import opened SubImageEffect
  import opened SubImageLaws
  import opened SubImageRuns

  /** A step asks for a type of the table, and what it writes stays clear of magic and table. */
  ghost predicate ClearStep(h: nat, rs: seq<Record>, s: Step)
    requires |rs| > 0
  {
    var k := FirstOfType(rs, s.imageType);
    k < |rs| && Recordable(s.imageType, |s.payload|) && Clear(h, rs, rs[k].offset, WriteEnd(rs[k], |s.payload|))
  }

  ghost predicate ClearSteps(h: nat, rs: seq<Record>, steps: seq<Step>)
    requires |rs| > 0
  {
    forall n :: 0 <= n < |steps| ==> ClearStep(h, rs, steps[n])
  }

  /** The byte that the latest step whose region writes reach position i leaves there. A step reaches
      as far as its payload or the size recorded when it is taken, whichever is longer. */
  function Written(rs: seq<Record>, steps: seq<Step>, i: nat): Option<byte> {
    if steps == [] then None
    else
      var init, s := steps[..|steps| - 1], steps[|steps| - 1];
      var k := FirstOfType(rs, s.imageType);
      if k < |rs| && rs[k].offset <= i < WriteEnd(RecordNow(rs, init, k), |s.payload|) then
        Some(RegionByte(rs[k], s.payload, i))
      else Written(rs, init, i)
  }

  /** Some step reaches position i or a later one. */
  ghost predicate ReachedFrom(rs: seq<Record>, steps: seq<Step>, i: nat) {
    exists j: nat :: i <= j && Written(rs, steps, j).Some?
  }

  /** Position i belongs to the size field of a record that some step replaced. */
  ghost predicate Patched(h: nat, rs: seq<Record>, steps: seq<Step>, i: nat) {
    exists k: nat :: Live(rs, k) && LastPayload(steps, rs[k].imageType).Some?
                     && InField(PatchedField(h, rs[k].imageType, k), i)
  }

  ghost predicate BytesNow(d: seq<byte>, e: seq<byte>, h: nat, rs: seq<Record>, steps: seq<Step>) {
    forall i: nat :: i < |e| && !Patched(h, rs, steps, i) ==>
      e[i] == if Written(rs, steps, i).Some? then Written(rs, steps, i).value else ByteAt(d, i)
  }

  ghost predicate LengthNow(d: seq<byte>, e: seq<byte>, rs: seq<Record>, steps: seq<Step>) {
    forall i: nat :: i < |e| <==> i < |d| || ReachedFrom(rs, steps, i)
  }

  ghost predicate FieldsNow(e: seq<byte>, h: nat, rs: seq<Record>, steps: seq<Step>) {
    forall k: nat :: Live(rs, k) ==>
      FieldNow(e, PatchedField(h, rs[k].imageType, k), LastPayload(steps, rs[k].imageType))
  }

  /** e is what a run of these steps makes of d. */
  ghost predicate Covered(d: seq<byte>, e: seq<byte>, h: nat, rs: seq<Record>, steps: seq<Step>)
    requires Parsed(d, h, rs)
  {
    && Parsed(e, h, TableNow(rs, steps))
    && LengthNow(d, e, rs, steps) && FieldsNow(e, h, rs, steps) && BytesNow(d, e, h, rs, steps)
  }

  // ----- one step -----

  /** The size a step finds is the original one or that of an earlier payload, so its writes are clear. */
  lemma {:induction false} LastClear(h: nat, rs: seq<Record>, steps: seq<Step>, t: int, k: nat)
    requires |rs| > 0 && ClearSteps(h, rs, steps) && Selects(rs, t, k) && LastPayload(steps, t).Some?
    ensures var p := LastPayload(steps, t).value;
            Clear(h, rs, rs[k].offset, WriteEnd(rs[k], |p|))
  {
    var n := |steps| - 1;
    assert ClearStep(h, rs, steps[n]);
    if steps[n].imageType != t {
      assert ClearSteps(h, rs, steps[..n]) by {
        forall m | 0 <= m < n
          ensures ClearStep(h, rs, steps[..n][m])
        {
          assert steps[..n][m] == steps[m];
        }
      }
      LastClear(h, rs, steps[..n], t, k);
    }
  }

  lemma ClearUnion(h: nat, rs: seq<Record>, r: Record, now: Record, m: nat, n: nat)
    requires |rs| > 0 && now.offset == r.offset && (now.size == r.size || now.size == m)
    requires Clear(h, rs, r.offset, WriteEnd(r, m)) && Clear(h, rs, r.offset, WriteEnd(r, n))
    ensures Clear(h, rs, now.offset, WriteEnd(now, n))
  {
  }

  lemma StepClear(h: nat, rs: seq<Record>, steps: seq<Step>, s: Step, k: nat)
    requires |rs| > 0 && ClearSteps(h, rs, steps) && ClearStep(h, rs, s) && Selects(rs, s.imageType, k)
    ensures RecordNow(rs, steps, k).offset == rs[k].offset
    ensures Clear(h, TableNow(rs, steps), rs[k].offset, WriteEnd(RecordNow(rs, steps, k), |s.payload|))
  {
    var now := RecordNow(rs, steps, k);
    if LastPayload(steps, s.imageType).Some? {
      LastClear(h, rs, steps, s.imageType, k);
      ClearUnion(h, rs, rs[k], now, |LastPayload(steps, s.imageType).value|, |s.payload|);
    } else {
      ClearUnion(h, rs, rs[k], now, |s.payload|, |s.payload|);
    }
  }

  /** What one step does, in the run's terms. */
  ghost predicate Taken(d: seq<byte>, c: seq<byte>, e: seq<byte>, h: nat, rs: seq<Record>,
                        steps: seq<Step>, s: Step, k: nat) {
    && Parsed(d, h, rs) && Covered(d, c, h, rs, steps)
    && Selects(rs, s.imageType, k) && Live(rs, k)
    && RecordNow(rs, steps, k).offset == rs[k].offset
    && Clear(h, rs, rs[k].offset, WriteEnd(RecordNow(rs, steps, k), |s.payload|))
    && Effect(c, e, RecordNow(rs, steps, k), s.payload, PatchedField(h, s.imageType, k))
  }

  lemma WrittenNext(rs: seq<Record>, steps: seq<Step>, s: Step, k: nat, i: nat)
    requires Selects(rs, s.imageType, k)
    ensures Written(rs, steps + [s], i) ==
            if rs[k].offset <= i < WriteEnd(RecordNow(rs, steps, k), |s.payload|)
            then Some(RegionByte(rs[k], s.payload, i)) else Written(rs, steps, i)
  {
    var all := steps + [s];
    assert all[..|all| - 1] == steps && all[|all| - 1] == s;
  }

  lemma ReachedNext(rs: seq<Record>, steps: seq<Step>, s: Step, k: nat, i: nat, now: Record)
    requires Selects(rs, s.imageType, k) && now == RecordNow(rs, steps, k) && now.offset == rs[k].offset
    ensures ReachedFrom(rs, steps + [s], i) <==>
            ReachedFrom(rs, steps, i) || (now.offset < WriteEnd(now, |s.payload|) && i < WriteEnd(now, |s.payload|))
  {
    var end := WriteEnd(now, |s.payload|);
    if now.offset < end && i < end {
      var j: nat := Max(i, end - 1);
      WrittenNext(rs, steps, s, k, j);
      assert Written(rs, steps + [s], j).Some?;
    }
    if ReachedFrom(rs, steps, i) {
      var j: nat :| i <= j && Written(rs, steps, j).Some?;
      WrittenNext(rs, steps, s, k, j);
      assert Written(rs, steps + [s], j).Some?;
    }
    if ReachedFrom(rs, steps + [s], i) {
      var j: nat :| i <= j && Written(rs, steps + [s], j).Some?;
      WrittenNext(rs, steps, s, k, j);
    }
  }

  lemma LengthGrows(n: nat, r: Record, p: nat, i: nat)
    ensures i < OutLength(n, r, p) <==> i < n || (r.offset < WriteEnd(r, p) && i < WriteEnd(r, p))
  {
  }

  lemma LengthAfterStep(d: seq<byte>, c: seq<byte>, e: seq<byte>, h: nat, rs: seq<Record>,
                        steps: seq<Step>, s: Step, k: nat)
    requires Taken(d, c, e, h, rs, steps, s, k)
    ensures LengthNow(d, e, rs, steps + [s])
  {
    var now := RecordNow(rs, steps, k);
    forall i: nat
      ensures i < |e| <==> i < |d| || ReachedFrom(rs, steps + [s], i)
    {
      ReachedNext(rs, steps, s, k, i, now);
      LengthGrows(|c|, now, |s.payload|, i);
      assert i < |c| <==> i < |d| || ReachedFrom(rs, steps, i);
    }
  }

  lemma PatchedGrows(h: nat, rs: seq<Record>, steps: seq<Step>, s: Step, k: nat, i: nat)
    requires Selects(rs, s.imageType, k) && Live(rs, k)
    ensures Patched(h, rs, steps, i) ==> Patched(h, rs, steps + [s], i)
    ensures InField(PatchedField(h, s.imageType, k), i) ==> Patched(h, rs, steps + [s], i)
  {
    LastAppend(steps, s, s.imageType);
    if Patched(h, rs, steps, i) {
      var m: nat :| Live(rs, m) && LastPayload(steps, rs[m].imageType).Some?
                    && InField(PatchedField(h, rs[m].imageType, m), i);
      LastAppend(steps, s, rs[m].imageType);
    }
  }

  /** A byte no step reaches behind the end of the file is a zero of the gap. */
  lemma BehindEnd(d: seq<byte>, c: seq<byte>, rs: seq<Record>, steps: seq<Step>, i: nat)
    requires LengthNow(d, c, rs, steps) && i >= |c|
    ensures i >= |d| && Written(rs, steps, i).None?
  {
    assert !ReachedFrom(rs, steps, i);
  }

  /** Where a step does not write, an unpatched byte is what it was. */
  lemma ByteKept(d: seq<byte>, c: seq<byte>, h: nat, rs: seq<Record>, steps: seq<Step>, i: nat)
    requires Parsed(d, h, rs) && Covered(d, c, h, rs, steps) && !Patched(h, rs, steps, i)
    ensures ByteAt(c, i) == if Written(rs, steps, i).Some? then Written(rs, steps, i).value else ByteAt(d, i)
  {
    if i >= |c| {
      BehindEnd(d, c, rs, steps, i);
    }
  }

  lemma ByteWritten(c: seq<byte>, e: seq<byte>, r: Record, now: Record, payload: seq<byte>, field: Option<nat>, i: nat,
                    before: Option<byte>, after: Option<byte>, original: byte)
    requires Effect(c, e, now, payload, field) && now.offset == r.offset && i < |e| && !InField(field, i)
    requires ByteAt(c, i) == if before.Some? then before.value else original
    requires after == if r.offset <= i < WriteEnd(now, |payload|) then Some(RegionByte(r, payload, i)) else before
    ensures e[i] == if after.Some? then after.value else original
  {
    assert e[i] == OutByte(c, now, payload, field, i);
  }

  lemma ByteAfterStep(d: seq<byte>, c: seq<byte>, e: seq<byte>, h: nat, rs: seq<Record>,
                      steps: seq<Step>, s: Step, k: nat, i: nat)
    requires Taken(d, c, e, h, rs, steps, s, k) && i < |e| && !Patched(h, rs, steps + [s], i)
    ensures var w := Written(rs, steps + [s], i);
            e[i] == if w.Some? then w.value else ByteAt(d, i)
  {
    PatchedGrows(h, rs, steps, s, k, i);
    WrittenNext(rs, steps, s, k, i);
    ByteKept(d, c, h, rs, steps, i);
    ByteWritten(c, e, rs[k], RecordNow(rs, steps, k), s.payload, PatchedField(h, s.imageType, k), i,
                Written(rs, steps, i), Written(rs, steps + [s], i), ByteAt(d, i));
  }

  lemma FieldAfter(d: seq<byte>, c: seq<byte>, e: seq<byte>, h: nat, rs: seq<Record>,
                   steps: seq<Step>, s: Step, k: nat, m: nat)
    requires Taken(d, c, e, h, rs, steps, s, k) && Live(rs, m)
    ensures FieldNow(e, PatchedField(h, rs[m].imageType, m), LastPayload(steps + [s], rs[m].imageType))
  {
    var now, field := RecordNow(rs, steps, k), PatchedField(h, s.imageType, k);
    var mine := PatchedField(h, rs[m].imageType, m);
    LastAppend(steps, s, rs[m].imageType);
    if m == k {
      OwnField(c, e, now, s.payload, field);
    } else {
      ClearFields(d, h, rs, rs[m].imageType, m, now, |s.payload|);
      FieldsDisjoint(h, rs, m, k);
      FieldKept(c, e, now, s.payload, field, mine, LastPayload(steps, rs[m].imageType));
    }
  }

  lemma FieldsDisjoint(h: nat, rs: seq<Record>, m: nat, k: nat)
    requires m < |rs| && k < |rs| && m != k
    ensures FieldsApart(PatchedField(h, rs[m].imageType, m), PatchedField(h, rs[k].imageType, k))
  {
  }

  /** A size field the step does not write to. */
  lemma FieldKept(c: seq<byte>, e: seq<byte>, now: Record, payload: seq<byte>, field: Option<nat>,
                  mine: Option<nat>, last: Option<seq<byte>>)
    requires Effect(c, e, now, payload, field) && FieldNow(c, mine, last)
    requires FieldApart(mine, now, |payload|) && FieldsApart(mine, field)
    ensures FieldNow(e, mine, last)
  {
    if mine.Some? && last.Some? {
      forall i: nat | mine.value <= i < mine.value + 4
        ensures e[i] == c[i]
      {
        assert e[i] == OutByte(c, now, payload, field, i);
      }
    }
  }

  lemma CoveredAfterStep(d: seq<byte>, c: seq<byte>, e: seq<byte>, h: nat, rs: seq<Record>,
                         steps: seq<Step>, s: Step, k: nat)
    requires Taken(d, c, e, h, rs, steps, s, k) && Parsed(e, h, TableNow(rs, steps + [s]))
    ensures Covered(d, e, h, rs, steps + [s])
  {
    LengthAfterStep(d, c, e, h, rs, steps, s, k);
    forall m: nat | Live(rs, m)
      ensures FieldNow(e, PatchedField(h, rs[m].imageType, m), LastPayload(steps + [s], rs[m].imageType))
    {
      FieldAfter(d, c, e, h, rs, steps, s, k, m);
    }
    forall i: nat | i < |e| && !Patched(h, rs, steps + [s], i)
      ensures e[i] == if Written(rs, steps + [s], i).Some? then Written(rs, steps + [s], i).value else ByteAt(d, i)
    {
      ByteAfterStep(d, c, e, h, rs, steps, s, k, i);
    }
  }

  lemma CoverStep(d: seq<byte>, c: seq<byte>, h: nat, rs: seq<Record>, steps: seq<Step>, s: Step, k: nat)
    requires Parsed(d, h, rs) && Covered(d, c, h, rs, steps) && ClearSteps(h, rs, steps)
    requires ClearStep(h, rs, s) && Selects(rs, s.imageType, k)
    ensures Replace(c, s.payload, s.imageType).Done?
    ensures Covered(d, Replace(c, s.payload, s.imageType).file, h, rs, steps + [s])
  {
    var table := TableNow(rs, steps);
    StepClear(h, rs, steps, s, k);
    TypesNow(rs, steps, s.imageType, k);
    Reparse(c, s.payload, s.imageType, h, table, k);
    ReplaceEffect(c, s.payload, s.imageType, h, table, k);
    StepTable(rs, steps, s, k);
    CoveredAfterStep(d, c, Replace(c, s.payload, s.imageType).file, h, rs, steps, s, k);
  }

  // ----- any run -----

  lemma CoverStart(d: seq<byte>, h: nat, rs: seq<Record>)
    requires Parsed(d, h, rs)
    ensures Covered(d, d, h, rs, [])
  {
    assert TableNow(rs, []) == rs;
  }

  lemma CoverExtend(d: seq<byte>, h: nat, rs: seq<Record>, init: seq<Step>, s: Step)
    requires Parsed(d, h, rs) && ClearSteps(h, rs, init) && ClearStep(h, rs, s)
    requires Run(d, init).Done? && Covered(d, Run(d, init).file, h, rs, init)
    ensures Run(d, init + [s]).Done?
    ensures Covered(d, Run(d, init + [s]).file, h, rs, init + [s])
  {
    var steps := init + [s];
    assert steps[..|steps| - 1] == init && steps[|steps| - 1] == s;
    CoverStep(d, Run(d, init).file, h, rs, init, s, FirstOfType(rs, s.imageType));
    assert Run(d, steps) == Replace(Run(d, init).file, s.payload, s.imageType);
  }

  /** After any run whose steps write clear of magic and table, whatever their payloads' lengths and
      however their regions overlap: every step has succeeded, the table is the original one with the
      last payloads' lengths, each size field holds such a length, every other byte is the one left by
      the latest step that reaches it, or the input's, or a zero in a gap behind the input's end, and
      the file ends where the input or the farthest step ends. */
  lemma {:induction false} AnyRun(d: seq<byte>, h: nat, rs: seq<Record>, steps: seq<Step>)
    requires Parsed(d, h, rs) && ClearSteps(h, rs, steps)
    ensures Run(d, steps).Done?
    ensures Covered(d, Run(d, steps).file, h, rs, steps)
  {
    if steps == [] {
      CoverStart(d, h, rs);
    } else {
      var init, s := steps[..|steps| - 1], steps[|steps| - 1];
      assert steps == init + [s];
      assert ClearStep(h, rs, steps[|init|]);
      forall n | 0 <= n < |init|
        ensures ClearStep(h, rs, init[n])
      {
        assert init[n] == steps[n];
      }
      AnyRun(d, h, rs, init);
      CoverExtend(d, h, rs, init, s);
    }
  }
}

/**
 * What the parser guarantees, stated over the pure model of module Records:
 * the effect of each record kind on the cursor, the handling of blank lines,
 * the line count, and the placement rules for file starts, file ends and
 * meter volumes that follow from them over a whole run.
 */
module Properties {
  import opened Wrappers
  import opened Fields
  import opened Primitives
  import opened Records

  /** A line the parser does not skip and whose first field is `code`. */
  predicate IsRecordLine(line: string, code: string) {
    !IsBlank(line) && Split(line) != [] && Split(line)[0] == code
  }

  // ---------------------------------------------------------------------------
  // One line

  /** A blank line changes nothing, the line index included; any other line is processed by its fields. */
  lemma StepOfLine(c: Cursor, line: string)
    ensures IsBlank(line) ==> Step(c, line) == Success(c)
    ensures !IsBlank(line) ==> Step(c, line) == ProcessRecord(c, Split(line))
  {
  }

  /** A line without fields, or whose first field is no known code, is rejected. */
  lemma RecordUnknownCode(c: Cursor, fields: seq<string>)
    ensures fields == [] ==> ProcessRecord(c, fields) == Failure(NoFields)
    ensures fields != [] && fields[0] !in {"100", "900", "200", "300"} ==>
      ProcessRecord(c, fields) == Failure(InvalidRecordType)
  {
  }

  /** A file start is accepted exactly as a lone field on the first record, and then only counted. */
  lemma RecordFileStart(c: Cursor, fields: seq<string>)
    requires 0 < |fields| && fields[0] == "100"
    ensures ProcessRecord(c, fields).Success? <==> |fields| == 1 && c.currentIndex == 0
    ensures ProcessRecord(c, fields).Success? ==> ProcessRecord(c, fields).value == c.(currentIndex := 1)
    ensures ProcessRecord(c, fields).Failure? ==> ProcessRecord(c, fields).error == InvalidFileStart
  {
  }

  /** A file end is accepted exactly as a lone field before any other file end, and sets the end flag. */
  lemma RecordFileEnd(c: Cursor, fields: seq<string>)
    requires 0 < |fields| && fields[0] == "900"
    ensures ProcessRecord(c, fields).Success? <==> |fields| == 1 && !c.fileClosed
    ensures ProcessRecord(c, fields).Success? ==>
      ProcessRecord(c, fields).value == c.(fileClosed := true, currentIndex := c.currentIndex + 1)
    ensures ProcessRecord(c, fields).Failure? ==> ProcessRecord(c, fields).error == InvalidFileEnd
  {
  }

  /**
   * A meter block is accepted exactly with three fields and the unit KWH; it
   * appends a new, empty read named by its second field and makes it the
   * open one, leaving every earlier read as it was.
   */
  lemma RecordMeterBlock(c: Cursor, fields: seq<string>)
    requires 0 < |fields| && fields[0] == "200"
    ensures ProcessRecord(c, fields).Success? <==> |fields| == 3 && fields[2] == "KWH"
    ensures |fields| != 3 ==> ProcessRecord(c, fields) == Failure(InvalidMeterBlock)
    ensures |fields| == 3 && fields[2] != "KWH" ==> ProcessRecord(c, fields) == Failure(InvalidEnergyUnit)
    ensures ProcessRecord(c, fields).Success? ==>
      var read := MeterReadValue(fields[1], KWH, map[]);
      && ProcessRecord(c, fields).value == Cursor(c.MeterReads(), Some(read), c.currentIndex + 1, c.fileClosed)
      && ProcessRecord(c, fields).value.MeterReads() == c.MeterReads() + [read]
  {
  }

  /**
   * The checks of a meter volume in the order they are made: four fields,
   * an open read, a known quality, a date, a number. It is accepted exactly
   * when all of them pass.
   */
  lemma RecordMeterVolumeChecks(c: Cursor, fields: seq<string>)
    requires 0 < |fields| && fields[0] == "300"
    ensures |fields| != 4 ==> ProcessRecord(c, fields) == Failure(InvalidMeterVolume)
    ensures |fields| == 4 && c.current.None? ==> ProcessRecord(c, fields) == Failure(NoOpenMeterRead)
    ensures |fields| == 4 && c.current.Some? && fields[3] !in {"A", "E"} ==>
      ProcessRecord(c, fields) == Failure(InvalidQuality)
    ensures |fields| == 4 && c.current.Some? && fields[3] in {"A", "E"} && ParseDate(fields[1]).None? ==>
      ProcessRecord(c, fields) == Failure(InvalidDate)
    ensures (|fields| == 4 && c.current.Some? && fields[3] in {"A", "E"} && ParseDate(fields[1]).Some? &&
             ParseDecimal(fields[2]).None?) ==>
      ProcessRecord(c, fields) == Failure(InvalidNumber)
    ensures ProcessRecord(c, fields).Success? <==>
      |fields| == 4 && c.current.Some? && fields[3] in {"A", "E"}
        && ParseDate(fields[1]).Some? && ParseDecimal(fields[2]).Some?
  {
  }

  /**
   * An accepted meter volume changes only the open read, and of it only the
   * entry of the parsed date, which it sets to the parsed number and quality
   * whatever the read held for that date before.
   */
  lemma RecordMeterVolumeEffect(c: Cursor, fields: seq<string>)
    requires 0 < |fields| && fields[0] == "300" && ProcessRecord(c, fields).Success?
    ensures |fields| == 4 && c.current.Some?
    ensures ParseDate(fields[1]).Some? && ParseDecimal(fields[2]).Some? && QualityOf(fields[3]).Some?
    ensures var next := ProcessRecord(c, fields).value;
      var date := ParseDate(fields[1]).value;
      var read := c.current.value;
      && next.closed == c.closed
      && next.currentIndex == c.currentIndex + 1 && next.fileClosed == c.fileClosed
      && next.current.Some?
      && next.current.value.nmi == read.nmi && next.current.value.energyUnit == read.energyUnit
      && next.current.value.volumes.Keys == read.volumes.Keys + {date}
      && next.current.value.volumes[date] == MeterVolume(ParseDecimal(fields[2]).value, QualityOf(fields[3]).value)
      && (forall d :: d in read.volumes && d != date ==> next.current.value.volumes[d] == read.volumes[d])
  {
  }

  /** Only a meter block opens a read where none was open. */
  lemma RecordOpensOnlyByBlock(c: Cursor, fields: seq<string>)
    requires c.current.None? && ProcessRecord(c, fields).Success? && ProcessRecord(c, fields).value.current.Some?
    ensures fields[0] == "200"
  {
  }

  // ---------------------------------------------------------------------------
  // Blank lines

  /** The lines the parser does not skip, in order. */
  function NonBlank(lines: seq<string>): seq<string> {
    if lines == [] then []
    else (if IsBlank(lines[0]) then [] else [lines[0]]) + NonBlank(lines[1..])
  }

  lemma {:induction false} NonBlankAppend(a: seq<string>, b: seq<string>)
    ensures NonBlank(a + b) == NonBlank(a) + NonBlank(b)
    decreases |a|
  {
    if a == [] {
      assert a + b == b;
    } else {
      assert (a + b)[0] == a[0] && (a + b)[1..] == a[1..] + b;
      var head := if IsBlank(a[0]) then [] else [a[0]];
      assert NonBlank(a + b) == head + NonBlank(a[1..] + b);
      NonBlankAppend(a[1..], b);
      assert head + (NonBlank(a[1..]) + NonBlank(b)) == (head + NonBlank(a[1..])) + NonBlank(b);
    }
  }

  /** A line that is not blank survives the filter. */
  lemma {:induction false} NonBlankKeeps(lines: seq<string>, i: nat)
    requires i < |lines| && !IsBlank(lines[i])
    ensures NonBlank(lines) != []
    decreases i
  {
    if i > 0 {
      NonBlankKeeps(lines[1..], i - 1);
    }
  }

  /** A run sees only the lines that are not blank. */
  lemma {:induction false} RunIgnoresBlank(c: Cursor, lines: seq<string>)
    ensures Run(c, lines) == Run(c, NonBlank(lines))
    decreases |lines|
  {
    if lines != [] {
      var rest := NonBlank(lines[1..]);
      if IsBlank(lines[0]) {
        assert NonBlank(lines) == rest;
        RunIgnoresBlank(c, lines[1..]);
      } else {
        var kept := NonBlank(lines);
        assert kept == [lines[0]] + rest;
        assert kept[0] == lines[0] && kept[1..] == rest;
        match Step(c, lines[0])
        case Failure(_) =>
        case Success(next) => RunIgnoresBlank(next, lines[1..]);
      }
    }
  }

  /** Inserting a blank line anywhere does not change the outcome of a run. */
  lemma BlankInsertion(c: Cursor, a: seq<string>, blank: string, b: seq<string>)
    requires IsBlank(blank)
    ensures Run(c, a + [blank] + b) == Run(c, a + b)
  {
    NonBlankAppend(a + [blank], b);
    NonBlankAppend(a, [blank]);
    NonBlankAppend(a, b);
    assert NonBlank([blank]) == [] by {
      assert [blank][1..] == [];
    }
    assert NonBlank(a) + [] == NonBlank(a);
    RunIgnoresBlank(c, a + [blank] + b);
    RunIgnoresBlank(c, a + b);
  }

  // ---------------------------------------------------------------------------
  // Whole runs

  /** An accepted record sets the end flag exactly when it is a file end, and never clears it. */
  lemma RecordFileFlag(c: Cursor, fields: seq<string>)
    requires ProcessRecord(c, fields).Success?
    ensures ProcessRecord(c, fields).value.fileClosed == (c.fileClosed || fields[0] == "900")
  {
  }

  /**
   * Along a run the line index grows by one per accepted line that is not
   * blank and the end flag, once set, stays set.
   */
  lemma {:induction false} RunCounts(c: Cursor, lines: seq<string>)
    ensures Run(c, lines).cursor.currentIndex >= c.currentIndex
    ensures c.fileClosed ==> Run(c, lines).cursor.fileClosed
    ensures Run(c, lines).Completed? ==>
      Run(c, lines).cursor.currentIndex == c.currentIndex + |NonBlank(lines)|
    decreases |lines|
  {
    if lines != [] {
      StepOfLine(c, lines[0]);
      match Step(c, lines[0])
      case Failure(_) =>
      case Success(next) =>
        RunCounts(next, lines[1..]);
        if IsBlank(lines[0]) {
          assert NonBlank(lines) == NonBlank(lines[1..]);
        } else {
          assert NonBlank(lines) == [lines[0]] + NonBlank(lines[1..]);
          RecordFileFlag(c, Split(lines[0]));
        }
    }
  }

  /** A file start that a run accepts is its first line that is not blank, read at index 0. */
  lemma FileStartOnlyFirst(c: Cursor, lines: seq<string>, j: nat)
    requires Run(c, lines).Completed? && j < |lines| && IsRecordLine(lines[j], "100")
    ensures c.currentIndex == 0 && NonBlank(lines[..j]) == []
  {
    FoldPrefix(Step, c, lines, j);
    var reached := Run(c, lines[..j]).cursor;
    RunCounts(c, lines[..j]);
    StepOfLine(reached, lines[j]);
    RecordFileStart(reached, Split(lines[j]));
  }

  /** A run that completes holds at most one file start. */
  lemma AtMostOneFileStart(c: Cursor, lines: seq<string>, i: nat, j: nat)
    requires Run(c, lines).Completed? && i < j < |lines| && IsRecordLine(lines[i], "100")
    ensures !IsRecordLine(lines[j], "100")
  {
    if IsRecordLine(lines[j], "100") {
      FileStartOnlyFirst(c, lines, j);
      NonBlankKeeps(lines[..j], i);
      assert false;
    }
  }

  /** Once a run accepts a file end, the end flag is set. */
  lemma FileEndCloses(c: Cursor, lines: seq<string>, i: nat)
    requires Run(c, lines).Completed? && i < |lines| && IsRecordLine(lines[i], "900")
    ensures Run(c, lines[..i + 1]).Completed? && Run(c, lines[..i + 1]).cursor.fileClosed
  {
    FoldPrefix(Step, c, lines, i);
    var before := Run(c, lines[..i]).cursor;
    StepOfLine(before, lines[i]);
    RecordFileFlag(before, Split(lines[i]));
  }

  /** The end flag set after lines[..i] is still set after any longer prefix the run gets through. */
  lemma StaysClosed(c: Cursor, lines: seq<string>, i: nat, j: nat)
    requires i <= j <= |lines|
    requires Run(c, lines[..i]).Completed? && Run(c, lines[..i]).cursor.fileClosed
    ensures Run(c, lines[..j]).cursor.fileClosed
  {
    var a, b := lines[..i], lines[i..j];
    assert a + b == lines[..j];
    FoldAppend(Step, c, a, b);
    var mid := Run(c, a).cursor;
    assert Run(c, lines[..j]) == Run(mid, b);
    RunCounts(mid, b);
  }

  /** A run that completes holds at most one file end. */
  lemma AtMostOneFileEnd(c: Cursor, lines: seq<string>, i: nat, j: nat)
    requires Run(c, lines).Completed? && i < j < |lines| && IsRecordLine(lines[i], "900")
    ensures !IsRecordLine(lines[j], "900")
  {
    FileEndCloses(c, lines, i);
    StaysClosed(c, lines, i + 1, j);
    FoldPrefix(Step, c, lines, j);
    if IsRecordLine(lines[j], "900") {
      var reached := Run(c, lines[..j]).cursor;
      StepOfLine(reached, lines[j]);
      RecordFileEnd(reached, Split(lines[j]));
    }
  }

  /** Over any cursor and line, only a meter block opens a read where none was open. */
  lemma StepOpensOnlyByBlock()
    ensures forall c: Cursor, line: string :: c.current.None? && Step(c, line).Success? && Step(c, line).value.current.Some? ==>
      IsRecordLine(line, "200")
  {
    forall c: Cursor, line: string | c.current.None? && Step(c, line).Success? && Step(c, line).value.current.Some?
      ensures IsRecordLine(line, "200")
    {
      StepOfLine(c, line);
      RecordOpensOnlyByBlock(c, Split(line));
    }
  }

  /** A read is open at the end of a run only if one was open at its start or the run met a meter block. */
  lemma OpenReadOrigin(c: Cursor, lines: seq<string>)
    requires Run(c, lines).Completed? && Run(c, lines).cursor.current.Some?
    ensures c.current.Some? || exists i :: 0 <= i < |lines| && IsRecordLine(lines[i], "200")
  {
    StepOpensOnlyByBlock();
    var i := FoldOpenOrigin(Step, l => IsRecordLine(l, "200"), c, lines);
  }

  /** A meter volume line is accepted only while a read is open. */
  lemma VolumeNeedsOpenRead(c: Cursor, line: string)
    requires IsRecordLine(line, "300") && Step(c, line).Success?
    ensures c.current.Some?
  {
    StepOfLine(c, line);
    RecordMeterVolumeChecks(c, Split(line));
  }

  /** Every meter volume of a completed run follows a meter block, or a read open at the start. */
  lemma VolumeFollowsBlock(c: Cursor, lines: seq<string>, j: nat)
    requires Run(c, lines).Completed? && j < |lines| && IsRecordLine(lines[j], "300")
    ensures c.current.Some? || exists i :: 0 <= i < j && IsRecordLine(lines[i], "200")
  {
    FoldPrefix(Step, c, lines, j);
    VolumeNeedsOpenRead(Run(c, lines[..j]).cursor, lines[j]);
    StepOpensOnlyByBlock();
    var i := FoldOpenOrigin(Step, l => IsRecordLine(l, "200"), c, lines[..j]);
    if c.current.None? {
      assert lines[..j][i] == lines[i];
    }
  }
}

/**
 * The parser as the objects it is made of: the meter reads it builds, the
 * cursor it keeps between lines (ParserCurrentParams) and the parser itself,
 * whose methods change that cursor in place. Each method is proved to do to
 * the cursor exactly what the functions of module Records say.
 */
module Parser {
  import opened Wrappers
  import opened Fields
  import opened Primitives
  import opened Records

  /** A meter read under construction: its volumes grow in place. */
  class MeterRead {
    const nmi: string
    const energyUnit: EnergyUnit
    var volumes: map<Date, MeterVolume>

    constructor (nmi: string, energyUnit: EnergyUnit)
      ensures Value() == MeterReadValue(nmi, energyUnit, map[])
    {
      this.nmi := nmi;
      this.energyUnit := energyUnit;
      volumes := map[];
    }

    /** What the read holds now. */
    function Value(): MeterReadValue
      reads this
    {
      MeterReadValue(nmi, energyUnit, volumes)
    }

    /** Records the volume of a day, replacing any earlier one for that day. */
    method AppendVolume(date: Date, volume: MeterVolume)
      modifies this
      ensures Value() == old(Value()).(volumes := old(volumes)[date := volume])
    {
      volumes := volumes[date := volume];
    }
  }

  /** The values of a sequence of reads, in the same order. */
  function Values(rs: seq<MeterRead>): (vs: seq<MeterReadValue>)
    reads rs
    ensures |vs| == |rs|
    ensures forall k :: 0 <= k < |rs| ==> vs[k] == rs[k].Value()
  {
    if rs == [] then [] else Values(rs[..|rs| - 1]) + [rs[|rs| - 1].Value()]
  }

  /** The values of every read but the newest: the closed reads. */
  function ClosedValues(rs: seq<MeterRead>): seq<MeterReadValue>
    reads rs
  {
    if rs == [] then [] else Values(rs[..|rs| - 1])
  }

  /** The value of the open read, if there is one. */
  function CurrentValue(current: MeterRead?): Option<MeterReadValue>
    reads current
  {
    if current == null then None else Some(current.Value())
  }

  /**
   * The open read is the newest of the output reads (there is one exactly
   * when a read was created), and no read object is listed twice.
   */
  ghost predicate ValidReads(meterReads: seq<MeterRead>, current: MeterRead?) {
    && (current == null <==> meterReads == [])
    && (current != null ==> current == meterReads[|meterReads| - 1])
    && forall i, j :: 0 <= i < j < |meterReads| ==> meterReads[i] != meterReads[j]
  }

  /** Under ValidReads, the closed reads followed by the open one are all the output reads. */
  lemma ValuesOfValidReads(meterReads: seq<MeterRead>, current: MeterRead?)
    requires ValidReads(meterReads, current)
    ensures ClosedValues(meterReads) + (if current == null then [] else [current.Value()]) == Values(meterReads)
  {
  }

  /** The parser's cursor: output reads, the open read, line index and end flag. */
  class ParserCurrentParams {
    var meterReads: seq<MeterRead>
    var currentMeterRead: MeterRead?
    var currentIndex: nat
    var fileClosedRecordTypeExists: bool

    /** The reads are well formed (ValidReads). */
    ghost predicate Valid()
      reads this
    {
      ValidReads(meterReads, currentMeterRead)
    }

    /** The cursor as a value. */
    ghost function Model(): (c: Cursor)
      reads this, meterReads, currentMeterRead
    {
      Cursor(ClosedValues(meterReads), CurrentValue(currentMeterRead), currentIndex, fileClosedRecordTypeExists)
    }

    constructor ()
      ensures Valid() && Model() == InitialCursor
    {
      meterReads := [];
      currentMeterRead := null;
      currentIndex := 0;
      fileClosedRecordTypeExists := false;
    }

    /** Counts a processed line. */
    method CountLine()
      requires Valid()
      modifies this`currentIndex
      ensures Valid() && Model() == old(Model()).(currentIndex := old(currentIndex) + 1)
    {
      currentIndex := currentIndex + 1;
    }
  }

  /** The exception a line-processing result stands for, if any. */
  function Thrown(r: Result<Cursor, ParseError>): Option<ParseError> {
    match r
    case Failure(e) => Some(e)
    case Success(_) => None
  }

  /** The cursor after a line-processing result: unchanged on a failure. */
  function After(c: Cursor, r: Result<Cursor, ParseError>): Cursor {
    match r
    case Failure(_) => c
    case Success(next) => next
  }

  /** The parser; its cursor lives as long as it does and is shared by all its parses. */
  class SimpleNem12ParserImpl {
    const parserCurrentParams: ParserCurrentParams

    constructor ()
      ensures fresh(parserCurrentParams)
      ensures parserCurrentParams.Valid() && parserCurrentParams.Model() == InitialCursor
    {
      parserCurrentParams := new ParserCurrentParams();
    }

    /** The record-type checks; a valid file end sets the end flag. */
    method ValidateRecordTypes(lineParams: seq<string>) returns (thrown: Option<ParseError>)
      requires parserCurrentParams.Valid()
      modifies parserCurrentParams`fileClosedRecordTypeExists
      ensures parserCurrentParams.Valid()
      ensures var r := Records.ValidateRecordTypes(old(parserCurrentParams.Model()), lineParams);
        thrown == Thrown(r) && parserCurrentParams.Model() == After(old(parserCurrentParams.Model()), r)
    {
      var params := parserCurrentParams;
      if |lineParams| == 0 {
        return Some(NoFields);
      }
      if RecordTypeOf(lineParams[0]).None? {
        return Some(InvalidRecordType);
      }
      if lineParams[0] == RecordTypeValue(FileStart) {
        if |lineParams| != 1 || params.currentIndex != 0 {
          return Some(InvalidFileStart);
        }
      } else if lineParams[0] == RecordTypeValue(FileEnd) {
        if |lineParams| != 1 || params.fileClosedRecordTypeExists {
          return Some(InvalidFileEnd);
        }
        params.fileClosedRecordTypeExists := true;
      }
      return None;
    }

    /** A meter block record (its fields already validated): opens a new read. */
    method MeterBlock(lineParams: seq<string>) returns (thrown: Option<ParseError>)
      requires parserCurrentParams.Valid()
      modifies parserCurrentParams
      ensures parserCurrentParams.Valid()
      ensures var r := Records.MeterBlock(old(parserCurrentParams.Model()), lineParams);
        thrown == Thrown(r) && parserCurrentParams.Model() == After(old(parserCurrentParams.Model()), r)
      ensures forall r :: r in parserCurrentParams.meterReads ==> r in old(parserCurrentParams.meterReads) || fresh(r)
    {
      var params := parserCurrentParams;
      if |lineParams| != 3 {
        return Some(InvalidMeterBlock);
      }
      if lineParams[2] != EnergyUnitName(KWH) {
        return Some(InvalidEnergyUnit);
      }
      var meterRead := new MeterRead(lineParams[1], KWH);
      params.currentMeterRead := meterRead;
      params.meterReads := params.meterReads + [meterRead];
      assert params.meterReads[..|params.meterReads| - 1] == old(params.meterReads);
      return None;
    }

    /** A meter volume record: a day's volume for the open read. */
    method MeterVolumeRecord(lineParams: seq<string>) returns (thrown: Option<ParseError>)
      requires parserCurrentParams.Valid()
      modifies parserCurrentParams.currentMeterRead
      ensures parserCurrentParams.Valid()
      ensures var r := Records.MeterVolumeRecord(old(parserCurrentParams.Model()), lineParams);
        thrown == Thrown(r) && parserCurrentParams.Model() == After(old(parserCurrentParams.Model()), r)
    {
      var params := parserCurrentParams;
      if |lineParams| != 4 {
        return Some(InvalidMeterVolume);
      }
      if params.currentMeterRead == null {
        return Some(NoOpenMeterRead);
      }
      var quality := QualityOf(lineParams[3]);
      if quality.None? {
        return Some(InvalidQuality);
      }
      var localDate := ParseDate(lineParams[1]);
      if localDate.None? {
        return Some(InvalidDate);
      }
      var volume := ParseDecimal(lineParams[2]);
      if volume.None? {
        return Some(InvalidNumber);
      }
      var n := |params.meterReads|;
      assert params.currentMeterRead !in params.meterReads[..n - 1];
      params.currentMeterRead.AppendVolume(localDate.value, MeterVolume(volume.value, quality.value));
      return None;
    }

    /** The assembly step of a validated line, chosen by its record code (lines 85-102). */
    method AssembleRecord(lineParams: seq<string>) returns (thrown: Option<ParseError>)
      requires parserCurrentParams.Valid() && 0 < |lineParams|
      modifies parserCurrentParams, parserCurrentParams.currentMeterRead
      ensures parserCurrentParams.Valid()
      ensures var r := Assemble(old(parserCurrentParams.Model()), lineParams);
        thrown == Thrown(r) && parserCurrentParams.Model() == After(old(parserCurrentParams.Model()), r)
      ensures forall r :: r in parserCurrentParams.meterReads ==> r in old(parserCurrentParams.meterReads) || fresh(r)
    {
      if lineParams[0] == RecordTypeValue(MeterReadBlock) {
        thrown := MeterBlock(lineParams);
      } else if lineParams[0] == RecordTypeValue(MeterReadVolume) {
        thrown := MeterVolumeRecord(lineParams);
      } else {
        thrown := None;
      }
    }

    /** A non-blank line's fields: validated, assembled, then counted (lines 83-103). */
    method ProcessRecord(lineParams: seq<string>) returns (thrown: Option<ParseError>)
      requires parserCurrentParams.Valid()
      modifies parserCurrentParams, parserCurrentParams.currentMeterRead
      ensures parserCurrentParams.Valid()
      ensures var r := Records.ProcessRecord(old(parserCurrentParams.Model()), lineParams);
        thrown == Thrown(r) && parserCurrentParams.Model() == After(old(parserCurrentParams.Model()), r)
      ensures forall r :: r in parserCurrentParams.meterReads ==> r in old(parserCurrentParams.meterReads) || fresh(r)
    {
      var params := parserCurrentParams;
      ghost var start := params.Model();
      ghost var r := Records.ProcessRecord(start, lineParams);
      thrown := ValidateRecordTypes(lineParams);
      if thrown.Some? {
        assert r == Failure(thrown.value);
        return;
      }
      ghost var validated := params.Model();
      assert Records.ValidateRecordTypes(start, lineParams) == Success(validated);
      thrown := AssembleRecord(lineParams);
      if thrown.Some? {
        assert r == Failure(thrown.value);
        return;
      }
      ghost var assembled := params.Model();
      assert Assemble(validated, lineParams) == Success(assembled);
      assert r == Success(assembled.(currentIndex := assembled.currentIndex + 1));
      params.CountLine();
    }

    /**
     * One line of the file: blank lines are skipped, any other line is split
     * and processed. A rejected line changes nothing.
     */
    method ProcessLineSimpleNem12(line: string) returns (thrown: Option<ParseError>)
      requires parserCurrentParams.Valid()
      modifies parserCurrentParams, parserCurrentParams.currentMeterRead
      ensures parserCurrentParams.Valid()
      ensures var r := Step(old(parserCurrentParams.Model()), line);
        thrown == Thrown(r) && parserCurrentParams.Model() == After(old(parserCurrentParams.Model()), r)
      ensures forall r :: r in parserCurrentParams.meterReads ==> r in old(parserCurrentParams.meterReads) || fresh(r)
    {
      TrimEmptyIffBlank(line);
      if Trim(line) == "" {
        thrown := None;
      } else {
        thrown := ProcessRecord(Split(line));
      }
    }

    /**
     * One turn of the parse loop: processes lines[i] after lines[..i] were
     * accepted, and says whether the run now got through lines[..i + 1] or
     * stopped at lines[i].
     */
    method ProcessNextLine(lines: seq<string>, i: nat, ghost start: Cursor, ghost reached: Cursor)
      returns (thrown: Option<ParseError>, ghost next: Cursor)
      requires parserCurrentParams.Valid() && i < |lines|
      requires Run(start, lines[..i]) == Completed(reached) && parserCurrentParams.Model() == reached
      modifies parserCurrentParams, parserCurrentParams.currentMeterRead
      ensures parserCurrentParams.Valid() && parserCurrentParams.Model() == next
      ensures thrown.None? ==> Run(start, lines[..i + 1]) == Completed(next)
      ensures thrown.Some? ==> Run(start, lines) == Aborted(next, thrown.value)
      ensures forall r :: r in parserCurrentParams.meterReads ==> r in old(parserCurrentParams.meterReads) || fresh(r)
    {
      thrown := ProcessLineSimpleNem12(lines[i]);
      next := parserCurrentParams.Model();
      if thrown.Some? {
        FoldStops(Step, start, lines, i, reached, thrown.value);
      } else {
        FoldExtends(Step, start, lines, i, reached, next);
      }
    }

    /**
     * Feeds every line of the file to ProcessLineSimpleNem12, stopping at the
     * first rejected line; on success returns the cursor's reads.
     */
    method ParseSimpleNem12(lines: seq<string>) returns (result: Result<seq<MeterRead>, ParseError>)
      requires parserCurrentParams.Valid()
      modifies parserCurrentParams, parserCurrentParams.meterReads
      ensures parserCurrentParams.Valid()
      ensures var o := Run(old(parserCurrentParams.Model()), lines);
        && parserCurrentParams.Model() == o.cursor
        && (o.Completed? <==> result.Success?)
        && (result.Success? ==> result.value == parserCurrentParams.meterReads)
        && (result.Success? ==> Values(result.value) == o.cursor.MeterReads())
        && (result.Failure? ==> result.error == o.error)
    {
      ghost var start := parserCurrentParams.Model();
      ghost var reached := start;
      var i := 0;
      while i < |lines|
        invariant 0 <= i <= |lines|
        invariant parserCurrentParams.Valid() && parserCurrentParams.Model() == reached
        invariant Run(start, lines[..i]) == Completed(reached)
        invariant forall r :: r in parserCurrentParams.meterReads ==> r in old(parserCurrentParams.meterReads) || fresh(r)
      {
        assert parserCurrentParams.currentMeterRead != null ==>
          parserCurrentParams.currentMeterRead in old(parserCurrentParams.meterReads) || fresh(parserCurrentParams.currentMeterRead);
        var thrown;
        thrown, reached := ProcessNextLine(lines, i, start, reached);
        if thrown.Some? {
          return Failure(thrown.value);
        }
        i := i + 1;
      }
      assert lines[..i] == lines;
      ValuesOfValidReads(parserCurrentParams.meterReads, parserCurrentParams.currentMeterRead);
      return Success(parserCurrentParams.meterReads);
    }
  }
}

/**
 * The Simple NEM12 record model and the parser's behaviour as pure functions
 * over a cursor value: what one line does to the cursor (Step) and what a
 * sequence of lines does (Run). The classes of module Parser are proved to
 * behave exactly like these functions.
 */
module Records {
  import opened Wrappers
  import opened Fields
  import opened Primitives

  /** The four record kinds and their codes in the first field. */
  datatype RecordType = FileStart | FileEnd | MeterReadBlock | MeterReadVolume

  function RecordTypeValue(t: RecordType): string {
    match t
    case FileStart => "100"
    case FileEnd => "900"
    case MeterReadBlock => "200"
    case MeterReadVolume => "300"
  }

  /** The record type whose code is `code`, if there is one. */
  function RecordTypeOf(code: string): (r: Option<RecordType>)
    ensures r.Some? ==> RecordTypeValue(r.value) == code
    ensures r.None? ==> forall t: RecordType :: RecordTypeValue(t) != code
  {
    if code == "100" then Some(FileStart)
    else if code == "900" then Some(FileEnd)
    else if code == "200" then Some(MeterReadBlock)
    else if code == "300" then Some(MeterReadVolume)
    else None
  }

  /** Energy units; only kilowatt hours are accepted. */
  datatype EnergyUnit = KWH

  function EnergyUnitName(u: EnergyUnit): string {
    match u
    case KWH => "KWH"
  }

  /** Quality of a volume: actual or estimated. */
  datatype Quality = A | E

  function QualityName(q: Quality): string {
    match q
    case A => "A"
    case E => "E"
  }

  /** Quality.valueOf on a name that is "A" or "E". */
  function QualityOf(name: string): (r: Option<Quality>)
    ensures r.Some? ==> QualityName(r.value) == name
    ensures r.None? ==> forall q: Quality :: QualityName(q) != name
  {
    if name == "A" then Some(A) else if name == "E" then Some(E) else None
  }

  datatype MeterVolume = MeterVolume(volume: Decimal, quality: Quality)

  /** The value of a meter read: its meter identifier, unit and volumes by date. */
  datatype MeterReadValue = MeterReadValue(nmi: string, energyUnit: EnergyUnit, volumes: map<Date, MeterVolume>)

  /**
   * The parser's cursor as a value. The output collection is `closed`
   * followed by `current`: the open read is always the newest one, since a
   * meter block both adds its read to the collection and makes it current.
   */
  datatype Cursor = Cursor(
    closed: seq<MeterReadValue>,
    current: Option<MeterReadValue>,
    currentIndex: nat,
    fileClosed: bool)
  {
    /** The accumulated reads, in creation order. */
    function MeterReads(): seq<MeterReadValue> {
      closed + if current.Some? then [current.value] else []
    }
  }

  /** The cursor a fresh parser starts from. */
  const InitialCursor: Cursor := Cursor([], None, 0, false)

  /** Why a line was rejected; every rejection aborts the whole parse. */
  datatype ParseError =
    | NoFields             // the line is only delimiters: its first field does not exist
    | InvalidRecordType
    | InvalidFileStart
    | InvalidFileEnd
    | InvalidMeterBlock
    | InvalidEnergyUnit
    | InvalidMeterVolume
    | NoOpenMeterRead
    | InvalidQuality
    | InvalidDate
    | InvalidNumber

  /**
   * The record-type checks that come first for every non-blank line: the
   * code must be known, a file start must be a lone field on the first
   * record, and a file end a lone field seen once, which it records.
   */
  function ValidateRecordTypes(c: Cursor, fields: seq<string>): (r: Result<Cursor, ParseError>)
    ensures r.Success? ==> 0 < |fields| && RecordTypeOf(fields[0]).Some?
    ensures r.Success? ==> r.value == c.(fileClosed := c.fileClosed || fields[0] == "900")
    ensures r.Failure? && 0 < |fields| && RecordTypeOf(fields[0]).Some? ==>
      fields[0] in {"100", "900"}
  {
    if |fields| == 0 then Failure(NoFields)
    else match RecordTypeOf(fields[0])
      case None => Failure(InvalidRecordType)
      case Some(FileStart) =>
        if |fields| != 1 || c.currentIndex != 0 then Failure(InvalidFileStart) else Success(c)
      case Some(FileEnd) =>
        if |fields| != 1 || c.fileClosed then Failure(InvalidFileEnd) else Success(c.(fileClosed := true))
      case Some(_) => Success(c)
  }

  /** A meter block's read: identifier field 1, unit KWH, no volumes yet. */
  function MeterBlock(c: Cursor, fields: seq<string>): (r: Result<Cursor, ParseError>)
    ensures r.Success? ==> r.value.current.Some? && r.value.MeterReads() == c.MeterReads() + [r.value.current.value]
    ensures r.Success? ==> r.value.closed == c.MeterReads() && c.closed <= r.value.closed
    ensures r.Success? ==> r.value.currentIndex == c.currentIndex && r.value.fileClosed == c.fileClosed
  {
    if |fields| != 3 then Failure(InvalidMeterBlock)
    else if fields[2] != EnergyUnitName(KWH) then Failure(InvalidEnergyUnit)
    else
      assert c.closed <= c.MeterReads();
      Success(c.(closed := c.MeterReads(), current := Some(MeterReadValue(fields[1], KWH, map[]))))
  }

  /**
   * A meter volume: four fields, an open read, a known quality, a date and a
   * number, checked in that order; the volume then replaces whatever the
   * open read held for that date.
   */
  function MeterVolumeRecord(c: Cursor, fields: seq<string>): (r: Result<Cursor, ParseError>)
    ensures r.Success? ==> r.value.closed == c.closed && c.current.Some? && r.value.current.Some?
    ensures r.Success? ==> r.value.currentIndex == c.currentIndex && r.value.fileClosed == c.fileClosed
  {
    if |fields| != 4 then Failure(InvalidMeterVolume)
    else if c.current.None? then Failure(NoOpenMeterRead)
    else match QualityOf(fields[3])
      case None => Failure(InvalidQuality)
      case Some(quality) =>
        match ParseDate(fields[1])
        case None => Failure(InvalidDate)
        case Some(date) =>
          match ParseDecimal(fields[2])
          case None => Failure(InvalidNumber)
          case Some(value) =>
            var read := c.current.value;
            Success(c.(current := Some(read.(volumes := read.volumes[date := MeterVolume(value, quality)]))))
  }

  /** The assembly a validated record calls for, by its code. */
  function Assemble(c: Cursor, fields: seq<string>): (r: Result<Cursor, ParseError>)
    requires 0 < |fields|
    ensures r.Success? ==> c.closed <= r.value.closed
    ensures r.Success? ==> r.value.currentIndex == c.currentIndex && r.value.fileClosed == c.fileClosed
    ensures r.Success? ==> (c.current.Some? ==> r.value.current.Some?)
  {
    if fields[0] == RecordTypeValue(MeterReadBlock) then MeterBlock(c, fields)
    else if fields[0] == RecordTypeValue(MeterReadVolume) then MeterVolumeRecord(c, fields)
    else Success(c)
  }

  /**
   * What a non-blank line does once split into fields: validation, then
   * assembly, then the line is counted.
   */
  function ProcessRecord(c: Cursor, fields: seq<string>): (r: Result<Cursor, ParseError>)
    ensures r.Success? ==> r.value.currentIndex == c.currentIndex + 1
    ensures r.Success? ==> c.closed <= r.value.closed
    ensures r.Success? ==> (c.current.Some? ==> r.value.current.Some?)
  {
    match ValidateRecordTypes(c, fields)
    case Failure(e) => Failure(e)
    case Success(validated) =>
      match Assemble(validated, fields)
      case Failure(e) => Failure(e)
      case Success(next) => Success(next.(currentIndex := next.currentIndex + 1))
  }

  /** What one line does to the cursor: a blank line nothing, any other its record's effect. */
  function Step(c: Cursor, line: string): (r: Result<Cursor, ParseError>)
    ensures IsBlank(line) ==> r == Success(c)
    ensures r.Success? && !IsBlank(line) ==> r.value.currentIndex == c.currentIndex + 1
    ensures r.Success? ==> c.closed <= r.value.closed
    ensures r.Success? ==> (c.current.Some? ==> r.value.current.Some?)
  {
    if IsBlank(line) then Success(c) else ProcessRecord(c, Split(line))
  }

  /** A run either consumes every line or stops at the first rejected one. */
  datatype Outcome =
    | Completed(cursor: Cursor)
    | Aborted(cursor: Cursor, error: ParseError)   // cursor as it was before the rejected line

  /** What one line can do to the cursor. */
  type StepFunction = (Cursor, string) -> Result<Cursor, ParseError>

  /** Feeds the lines to `step` in order, stopping at the first failure. */
  function Fold(step: StepFunction, c: Cursor, lines: seq<string>): (o: Outcome)
    ensures lines == [] ==> o == Completed(c)
    ensures o.Aborted? ==> 0 < |lines|
    decreases |lines|
  {
    if lines == [] then Completed(c)
    else match step(c, lines[0])
      case Failure(e) => Aborted(c, e)
      case Success(next) => Fold(step, next, lines[1..])
  }

  /** The parser's per-line loop: every line through Step, stopping at the first rejected one. */
  function Run(c: Cursor, lines: seq<string>): Outcome {
    Fold(Step, c, lines)
  }

  /** Folding over two stretches of lines is folding the first, then the second from where it stopped. */
  lemma {:induction false} FoldAppend(step: StepFunction, c: Cursor, a: seq<string>, b: seq<string>)
    ensures Fold(step, c, a + b) == match Fold(step, c, a)
      case Completed(next) => Fold(step, next, b)
      case Aborted(_, _) => Fold(step, c, a)
    decreases |a|
  {
    if a == [] {
      assert a + b == b;
    } else {
      assert (a + b)[0] == a[0] && (a + b)[1..] == a[1..] + b;
      match step(c, a[0])
      case Failure(_) =>
      case Success(next) => FoldAppend(step, next, a[1..], b);
    }
  }

  /** A fold that got through lines[..i] and accepts lines[i] gets through lines[..i + 1]. */
  lemma FoldExtends(step: StepFunction, c: Cursor, lines: seq<string>, i: nat, reached: Cursor, next: Cursor)
    requires i < |lines|
    requires Fold(step, c, lines[..i]) == Completed(reached)
    requires step(reached, lines[i]) == Success(next)
    ensures Fold(step, c, lines[..i + 1]) == Completed(next)
  {
    FoldAppend(step, c, lines[..i], [lines[i]]);
    assert [lines[i]][1..] == [];
    assert lines[..i] + [lines[i]] == lines[..i + 1];
  }

  /** A fold that got through lines[..i] and rejects lines[i] aborts there. */
  lemma FoldStops(step: StepFunction, c: Cursor, lines: seq<string>, i: nat, reached: Cursor, e: ParseError)
    requires i < |lines|
    requires Fold(step, c, lines[..i]) == Completed(reached)
    requires step(reached, lines[i]) == Failure(e)
    ensures Fold(step, c, lines) == Aborted(reached, e)
  {
    FoldAppend(step, c, lines[..i], lines[i..]);
    assert lines[..i] + lines[i..] == lines;
    assert lines[i..][0] == lines[i];
  }

  /** A fold that completes got through every prefix, and accepted the line after it. */
  lemma FoldPrefix(step: StepFunction, c: Cursor, lines: seq<string>, j: nat)
    requires Fold(step, c, lines).Completed? && j < |lines|
    ensures Fold(step, c, lines[..j]).Completed?
    ensures step(Fold(step, c, lines[..j]).cursor, lines[j]).Success?
    ensures Fold(step, c, lines[..j + 1]) == Completed(step(Fold(step, c, lines[..j]).cursor, lines[j]).value)
  {
    FoldAppend(step, c, lines[..j], lines[j..]);
    assert lines[..j] + lines[j..] == lines;
    var reached := Fold(step, c, lines[..j]).cursor;
    assert lines[j..][0] == lines[j];
    FoldExtends(step, c, lines, j, reached, step(reached, lines[j]).value);
  }

  /** A fold that aborts does so at a line that the fold up to it rejects. */
  lemma {:induction false} FoldAborts(step: StepFunction, c: Cursor, lines: seq<string>)
    requires Fold(step, c, lines).Aborted?
    ensures exists k ::
      && 0 <= k < |lines|
      && Fold(step, c, lines[..k]) == Completed(Fold(step, c, lines).cursor)
      && step(Fold(step, c, lines).cursor, lines[k]) == Failure(Fold(step, c, lines).error)
    decreases |lines|
  {
    var o := Fold(step, c, lines);
    match step(c, lines[0])
    case Failure(_) =>
      assert lines[..0] == [];
      assert Fold(step, c, lines[..0]) == Completed(o.cursor);
    case Success(next) =>
      FoldAborts(step, next, lines[1..]);
      var k :| 0 <= k < |lines[1..]| && Fold(step, next, lines[1..][..k]) == Completed(o.cursor)
        && step(o.cursor, lines[1..][k]) == Failure(o.error);
      assert lines[..k + 1] == [lines[0]] + lines[1..][..k];
      FoldAppend(step, c, [lines[0]], lines[1..][..k]);
      assert [lines[0]][1..] == [];
      assert Fold(step, c, lines[..k + 1]) == Completed(o.cursor);
  }

  /**
   * When `step` opens a read only on lines that satisfy `opens`, a fold that
   * ends with a read open started with one or met such a line, at index i.
   */
  lemma {:induction false} FoldOpenOrigin(step: StepFunction, opens: string -> bool, c: Cursor, lines: seq<string>)
    returns (i: nat)
    requires forall c': Cursor, l: string :: c'.current.None? && step(c', l).Success? && step(c', l).value.current.Some? ==> opens(l)
    requires Fold(step, c, lines).Completed? && Fold(step, c, lines).cursor.current.Some?
    ensures c.current.None? ==> i < |lines| && opens(lines[i])
    decreases |lines|
  {
    i := 0;
    if c.current.None? {
      var next := step(c, lines[0]).value;
      if next.current.None? {
        var k := FoldOpenOrigin(step, opens, next, lines[1..]);
        assert lines[1..][k] == lines[k + 1];
        i := k + 1;
      }
    }
  }

  /**
   * A read the format can carry: a meter identifier without the delimiter,
   * the unit KWH and calendar dates only.
   */
  predicate WellFormedRead(v: MeterReadValue) {
    && Delimiter !in v.nmi
    && v.energyUnit == KWH
    && forall d :: d in v.volumes ==> ValidDate(d)
  }

  /** Every read of the cursor, closed or open, is well formed. */
  predicate WellFormedCursor(c: Cursor) {
    && (forall k :: 0 <= k < |c.closed| ==> WellFormedRead(c.closed[k]))
    && (c.current.Some? ==> WellFormedRead(c.current.value))
  }

  /** A well-formed cursor lists well-formed reads. */
  lemma WellFormedReads(c: Cursor)
    requires WellFormedCursor(c)
    ensures forall k :: 0 <= k < |c.MeterReads()| ==> WellFormedRead(c.MeterReads()[k])
  {
    var all := c.MeterReads();
    forall k | 0 <= k < |all| ensures WellFormedRead(all[k]) {
      if k < |c.closed| {
        assert all[k] == c.closed[k];
      }
    }
  }

  /** A meter block builds a well-formed read: split fields hold no delimiter. */
  lemma BlockKeepsWellFormed(c: Cursor, fields: seq<string>)
    requires WellFormedCursor(c) && MeterBlock(c, fields).Success?
    requires forall k :: 0 <= k < |fields| ==> Delimiter !in fields[k]
    ensures WellFormedCursor(MeterBlock(c, fields).value)
  {
    WellFormedReads(c);
  }

  /** A meter volume adds a calendar date to the open read. */
  lemma VolumeKeepsWellFormed(c: Cursor, fields: seq<string>)
    requires WellFormedCursor(c) && MeterVolumeRecord(c, fields).Success?
    ensures WellFormedCursor(MeterVolumeRecord(c, fields).value)
  {
    var date := ParseDate(fields[1]).value;
    var next := MeterVolumeRecord(c, fields).value;
    assert next.current.value.volumes.Keys == c.current.value.volumes.Keys + {date};
  }

  /** No line the parser accepts makes a read ill formed. */
  lemma StepKeepsWellFormed()
    ensures forall c: Cursor, line: string :: WellFormedCursor(c) && Step(c, line).Success? ==> WellFormedCursor(Step(c, line).value)
  {
    forall c: Cursor, line: string | WellFormedCursor(c) && Step(c, line).Success?
      ensures WellFormedCursor(Step(c, line).value)
    {
      if !IsBlank(line) {
        var fields := Split(line);
        var validated := ValidateRecordTypes(c, fields).value;
        assert WellFormedCursor(validated);
        if fields[0] == RecordTypeValue(MeterReadBlock) {
          BlockKeepsWellFormed(validated, fields);
        } else if fields[0] == RecordTypeValue(MeterReadVolume) {
          VolumeKeepsWellFormed(validated, fields);
        }
      }
    }
  }

  /** A property of the cursor that every accepted step keeps holds at the end of a fold, aborted or not. */
  lemma {:induction false} FoldPreserves(step: StepFunction, inv: Cursor -> bool, c: Cursor, lines: seq<string>)
    requires forall c': Cursor, l: string :: inv(c') && step(c', l).Success? ==> inv(step(c', l).value)
    ensures inv(c) ==> inv(Fold(step, c, lines).cursor)
    decreases |lines|
  {
    if inv(c) && lines != [] && step(c, lines[0]).Success? {
      FoldPreserves(step, inv, step(c, lines[0]).value, lines[1..]);
    }
  }

  /** Every read a run holds at its end is well formed if every read it started with was. */
  lemma RunKeepsWellFormed(c: Cursor, lines: seq<string>)
    ensures WellFormedCursor(c) ==> WellFormedCursor(Run(c, lines).cursor)
  {
    StepKeepsWellFormed();
    FoldPreserves(Step, WellFormedCursor, c, lines);
  }

  /** The whole parse of a file's lines by a fresh parser: on success, the well-formed reads built, in creation order. */
  function Parse(lines: seq<string>): (r: Result<seq<MeterReadValue>, ParseError>)
    ensures r.Success? <==> Run(InitialCursor, lines).Completed?
    ensures r.Success? ==> forall k :: 0 <= k < |r.value| ==> WellFormedRead(r.value[k])
  {
    match Run(InitialCursor, lines)
    case Completed(c) =>
      RunKeepsWellFormed(InitialCursor, lines);
      WellFormedReads(c);
      Success(c.MeterReads())
    case Aborted(_, e) => Failure(e)
  }
}

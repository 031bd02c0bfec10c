/**
 * Writing meter reads out as Simple NEM12 lines and reading them back. A
 * file made of a file start, then for each read its meter block followed
 * by its volume lines, then a file end, parses to exactly the reads
 * written, in order; each read holds, for every date, the volume of the
 * last line given for that date.
 */
module RoundTrip {
  import opened Wrappers
  import opened Fields
  import opened Primitives
  import opened Records
  import opened Properties

  /** One volume line to write: its date and its volume. */
  datatype Entry = Entry(date: Date, volume: MeterVolume)

  /** One read to write: its meter identifier and its volume lines in file order. */
  datatype ReadSource = ReadSource(nmi: string, entries: seq<Entry>)

  /** A read the format can carry: an identifier without the delimiter, and calendar dates. */
  predicate Writable(r: ReadSource) {
    && Delimiter !in r.nmi
    && forall k :: 0 <= k < |r.entries| ==> ValidDate(r.entries[k].date)
  }

  function BlockFields(nmi: string): seq<string> {
    [RecordTypeValue(MeterReadBlock), nmi, EnergyUnitName(KWH)]
  }

  function VolumeFields(e: Entry): seq<string> {
    [RecordTypeValue(MeterReadVolume), FormatDate(e.date), FormatDecimal(e.volume.volume), QualityName(e.volume.quality)]
  }

  function VolumeLines(entries: seq<Entry>): seq<string> {
    if entries == [] then [] else [Join(VolumeFields(entries[0]))] + VolumeLines(entries[1..])
  }

  /** A read's meter block followed by its volumes. */
  function ReadLines(r: ReadSource): seq<string> {
    [Join(BlockFields(r.nmi))] + VolumeLines(r.entries)
  }

  function BodyLines(rs: seq<ReadSource>): seq<string> {
    if rs == [] then [] else ReadLines(rs[0]) + BodyLines(rs[1..])
  }

  /** The whole file: file start, the reads, file end. */
  function FileLines(rs: seq<ReadSource>): seq<string> {
    [RecordTypeValue(FileStart)] + BodyLines(rs) + [RecordTypeValue(FileEnd)]
  }

  /** The volumes after the entries, each in turn replacing whatever its date held. */
  function Apply(volumes: map<Date, MeterVolume>, entries: seq<Entry>): map<Date, MeterVolume>
    decreases |entries|
  {
    if entries == [] then volumes else Apply(volumes[entries[0].date := entries[0].volume], entries[1..])
  }

  /** The read a parse of ReadLines(r) builds. */
  function ReadOf(r: ReadSource): MeterReadValue {
    MeterReadValue(r.nmi, KWH, Apply(map[], r.entries))
  }

  function ReadsOf(rs: seq<ReadSource>): seq<MeterReadValue> {
    if rs == [] then [] else [ReadOf(rs[0])] + ReadsOf(rs[1..])
  }

  // ---------------------------------------------------------------------------
  // Last write wins

  /** Applying two stretches of entries is applying the first, then the second. */
  lemma {:induction false} ApplyAppend(volumes: map<Date, MeterVolume>, a: seq<Entry>, b: seq<Entry>)
    ensures Apply(volumes, a + b) == Apply(Apply(volumes, a), b)
    decreases |a|
  {
    if a != [] {
      assert (a + b)[0] == a[0] && (a + b)[1..] == a[1..] + b;
      ApplyAppend(volumes[a[0].date := a[0].volume], a[1..], b);
    } else {
      assert a + b == b;
    }
  }

  /** The last entry decides its date; every other date keeps what the earlier entries left. */
  lemma ApplyLast(volumes: map<Date, MeterVolume>, entries: seq<Entry>, e: Entry)
    ensures Apply(volumes, entries + [e]) == Apply(volumes, entries)[e.date := e.volume]
  {
    ApplyAppend(volumes, entries, [e]);
    assert [e][1..] == [];
  }

  // ---------------------------------------------------------------------------
  // The written lines

  /** A joined line whose first field starts with a printing character is not blank. */
  lemma JoinNotBlank(fields: seq<string>)
    requires 1 < |fields| && fields[0] != "" && !IsTrimmable(fields[0][0])
    ensures !IsBlank(Join(fields))
  {
    var line := Join(fields);
    assert line[0] == fields[0][0] && !IsTrimmable(line[0]);
  }

  /** A formatted number is never empty and holds no delimiter. */
  lemma DecimalText(x: Decimal)
    ensures FormatDecimal(x) != "" && Delimiter !in FormatDecimal(x)
  {
    var magnitude := if x.unscaled < 0 then -x.unscaled else x.unscaled;
    var whole, fraction := PlainDigitsParts(magnitude, x.scale);
    var plain := PlainDigits(magnitude, x.scale);
    assert forall k :: 0 <= k < |plain| ==> plain[k] != Delimiter by {
      forall k | 0 <= k < |plain|
        ensures plain[k] != Delimiter
      {
        if k < |whole| {
          assert plain[k] == whole[k];
        } else if x.scale > 0 && k > |whole| {
          assert plain[k] == fraction[k - |whole| - 1];
        }
      }
    }
    if x.unscaled < 0 {
      assert FormatDecimal(x) == "-" + plain;
      assert forall k :: 1 <= k < |FormatDecimal(x)| ==> FormatDecimal(x)[k] == plain[k - 1];
    }
  }

  /** A meter block line splits back into its fields. */
  lemma BlockLineFields(nmi: string)
    requires Delimiter !in nmi
    ensures !IsBlank(Join(BlockFields(nmi))) && Split(Join(BlockFields(nmi))) == BlockFields(nmi)
  {
    JoinNotBlank(BlockFields(nmi));
    SplitOfJoin(BlockFields(nmi));
  }

  /** A volume line splits back into its fields. */
  lemma VolumeLineFields(e: Entry)
    ensures !IsBlank(Join(VolumeFields(e))) && Split(Join(VolumeFields(e))) == VolumeFields(e)
  {
    var fields := VolumeFields(e);
    DecimalText(e.volume.volume);
    var date := FormatDate(e.date);
    assert forall k :: 0 <= k < |date| ==> date[k] != Delimiter by {
      assert AllDigits(date);
    }
    JoinNotBlank(fields);
    SplitOfJoin(fields);
  }

  // ---------------------------------------------------------------------------
  // Reading them back

  /** The cursor after a meter block: a new, empty read after all the earlier ones. */
  function Opened(c: Cursor, nmi: string): Cursor {
    Cursor(c.MeterReads(), Some(MeterReadValue(nmi, KWH, map[])), c.currentIndex + 1, c.fileClosed)
  }

  /** The cursor after a volume: the open read's entry for the date replaced. */
  function Updated(c: Cursor, e: Entry): Cursor
    requires c.current.Some?
  {
    c.(current := Some(c.current.value.(volumes := c.current.value.volumes[e.date := e.volume])),
       currentIndex := c.currentIndex + 1)
  }

  /** A line step that treats the written lines as the parser does. */
  ghost predicate ReadsWrittenLines(step: StepFunction) {
    && step(InitialCursor, RecordTypeValue(FileStart)) == Success(InitialCursor.(currentIndex := 1))
    && (forall c: Cursor {:trigger step(c, RecordTypeValue(FileEnd))} :: !c.fileClosed ==>
          step(c, RecordTypeValue(FileEnd)) == Success(c.(fileClosed := true, currentIndex := c.currentIndex + 1)))
    && (forall c: Cursor, nmi: string {:trigger step(c, Join(BlockFields(nmi)))} :: Delimiter !in nmi ==>
          step(c, Join(BlockFields(nmi))) == Success(Opened(c, nmi)))
    && (forall c: Cursor, e: Entry {:trigger step(c, Join(VolumeFields(e)))} :: c.current.Some? && ValidDate(e.date) ==>
          step(c, Join(VolumeFields(e))) == Success(Updated(c, e)))
  }

  /** A meter block line opens a new, empty read after all the earlier ones. */
  lemma BlockRecord(c: Cursor, nmi: string)
    ensures ProcessRecord(c, BlockFields(nmi)) == Success(Opened(c, nmi))
  {
    RecordMeterBlock(c, BlockFields(nmi));
  }

  /** A meter volume whose fields all read back sets the entry of its date in the open read. */
  lemma VolumeRecordOf(c: Cursor, fields: seq<string>, date: Date, volume: MeterVolume)
    requires |fields| == 4 && fields[0] == "300" && c.current.Some?
    requires ParseDate(fields[1]) == Some(date) && ParseDecimal(fields[2]) == Some(volume.volume)
    requires QualityOf(fields[3]) == Some(volume.quality)
    ensures ProcessRecord(c, fields) == Success(Updated(c, Entry(date, volume)))
  {
    var read := c.current.value;
    var assembled := c.(current := Some(read.(volumes := read.volumes[date := volume])));
    VolumeAssembly(c, fields, date, volume);
    VolumeValidates(c, fields);
    ProcessedAs(c, fields, assembled);
    assert Updated(c, Entry(date, volume)) == assembled.(currentIndex := assembled.currentIndex + 1);
  }

  /** The meter volume assembly of such fields. */
  lemma VolumeAssembly(c: Cursor, fields: seq<string>, date: Date, volume: MeterVolume)
    requires |fields| == 4 && fields[0] == "300" && c.current.Some?
    requires ParseDate(fields[1]) == Some(date) && ParseDecimal(fields[2]) == Some(volume.volume)
    requires QualityOf(fields[3]) == Some(volume.quality)
    ensures Assemble(c, fields) ==
      Success(c.(current := Some(c.current.value.(volumes := c.current.value.volumes[date := volume]))))
  {
    assert Assemble(c, fields) == MeterVolumeRecord(c, fields);
    assert MeterVolume(volume.volume, volume.quality) == volume;
  }

  /** A meter volume passes the record-type checks untouched. */
  lemma VolumeValidates(c: Cursor, fields: seq<string>)
    requires 0 < |fields| && fields[0] == "300"
    ensures ValidateRecordTypes(c, fields) == Success(c)
  {
    assert RecordTypeOf(fields[0]) == Some(MeterReadVolume);
  }

  /** A record that validates and assembles is then counted. */
  lemma ProcessedAs(c: Cursor, fields: seq<string>, assembled: Cursor)
    requires 0 < |fields| && ValidateRecordTypes(c, fields) == Success(c) && Assemble(c, fields) == Success(assembled)
    ensures ProcessRecord(c, fields) == Success(assembled.(currentIndex := assembled.currentIndex + 1))
  {
  }

  /** A volume on a valid date sets that date of the open read, and nothing else. */
  lemma VolumeRecord(c: Cursor, e: Entry)
    requires c.current.Some? && ValidDate(e.date)
    ensures ProcessRecord(c, VolumeFields(e)) == Success(Updated(c, e))
  {
    VolumeFieldsRead(e);
    VolumeRecordOf(c, VolumeFields(e), e.date, e.volume);
  }

  /** The fields of a volume line on a valid date read back as the entry. */
  lemma VolumeFieldsRead(e: Entry)
    requires ValidDate(e.date)
    ensures var fields := VolumeFields(e);
      && |fields| == 4 && fields[0] == "300"
      && ParseDate(fields[1]) == Some(e.date) && ParseDecimal(fields[2]) == Some(e.volume.volume)
      && QualityOf(fields[3]) == Some(e.volume.quality)
  {
    VolumeDateField(e);
    VolumeNumberField(e);
    VolumeQualityField(e);
  }

  lemma VolumeDateField(e: Entry)
    requires ValidDate(e.date)
    ensures ParseDate(VolumeFields(e)[1]) == Some(e.date)
  {
    DateRoundTrip(e.date);
  }

  lemma VolumeNumberField(e: Entry)
    ensures ParseDecimal(VolumeFields(e)[2]) == Some(e.volume.volume)
  {
    DecimalRoundTrip(e.volume.volume);
  }

  lemma VolumeQualityField(e: Entry)
    ensures QualityOf(VolumeFields(e)[3]) == Some(e.volume.quality)
  {
    assert QualityOf(QualityName(e.volume.quality)) == Some(e.volume.quality);
  }

  /** The parser's own line step reads the written lines as intended. */
  lemma StepReadsWrittenLines()
    ensures ReadsWrittenLines(Step)
  {
    var start := RecordTypeValue(FileStart);
    var end := RecordTypeValue(FileEnd);
    LoneField(start);
    StepOfLine(InitialCursor, start);
    RecordFileStart(InitialCursor, [start]);
    forall c: Cursor | !c.fileClosed
      ensures Step(c, end) == Success(c.(fileClosed := true, currentIndex := c.currentIndex + 1))
    {
      LoneField(end);
      StepOfLine(c, end);
      RecordFileEnd(c, [end]);
    }
    forall c: Cursor, nmi: string | Delimiter !in nmi
      ensures Step(c, Join(BlockFields(nmi))) == Success(Opened(c, nmi))
    {
      BlockLineFields(nmi);
      StepOfLine(c, Join(BlockFields(nmi)));
      BlockRecord(c, nmi);
    }
    forall c: Cursor, e: Entry | c.current.Some? && ValidDate(e.date)
      ensures Step(c, Join(VolumeFields(e))) == Success(Updated(c, e))
    {
      VolumeLineFields(e);
      StepOfLine(c, Join(VolumeFields(e)));
      VolumeRecord(c, e);
    }
  }

  /** The volume lines of a read fill the open read's map, one date after another. */
  lemma {:induction false} FoldVolumes(step: StepFunction, c: Cursor, entries: seq<Entry>)
    requires ReadsWrittenLines(step)
    requires c.current.Some? && forall k :: 0 <= k < |entries| ==> ValidDate(entries[k].date)
    ensures Fold(step, c, VolumeLines(entries)) ==
      Completed(c.(current := Some(c.current.value.(volumes := Apply(c.current.value.volumes, entries))),
                   currentIndex := c.currentIndex + |entries|))
    decreases |entries|
  {
    if entries != [] {
      var next := Updated(c, entries[0]);
      var lines := VolumeLines(entries);
      assert lines[0] == Join(VolumeFields(entries[0])) && lines[1..] == VolumeLines(entries[1..]);
      assert step(c, lines[0]) == Success(next);
      assert Fold(step, c, lines) == Fold(step, next, VolumeLines(entries[1..]));
      assert Apply(c.current.value.volumes, entries) == Apply(next.current.value.volumes, entries[1..]);
      FoldVolumes(step, next, entries[1..]);
    }
  }

  /** The lines of one read add exactly that read after the earlier ones. */
  lemma FoldRead(step: StepFunction, c: Cursor, r: ReadSource)
    requires ReadsWrittenLines(step) && Writable(r)
    ensures Fold(step, c, ReadLines(r)) == Completed(AfterRead(c, r))
  {
    var lines := ReadLines(r);
    assert lines[0] == Join(BlockFields(r.nmi)) && lines[1..] == VolumeLines(r.entries);
    assert step(c, lines[0]) == Success(Opened(c, r.nmi));
    FoldVolumes(step, Opened(c, r.nmi), r.entries);
  }

  /** The cursor after one written read. */
  function AfterRead(c: Cursor, r: ReadSource): Cursor {
    Cursor(c.MeterReads(), Some(ReadOf(r)), c.currentIndex + 1 + |r.entries|, c.fileClosed)
  }

  /** The cursor after several written reads. */
  function AfterReads(c: Cursor, rs: seq<ReadSource>): Cursor
    decreases |rs|
  {
    if rs == [] then c else AfterReads(AfterRead(c, rs[0]), rs[1..])
  }

  /** After several written reads the collection holds exactly those reads after the earlier ones. */
  lemma {:induction false} AfterReadsValue(c: Cursor, rs: seq<ReadSource>)
    ensures AfterReads(c, rs).MeterReads() == c.MeterReads() + ReadsOf(rs)
    ensures AfterReads(c, rs).fileClosed == c.fileClosed
    decreases |rs|
  {
    if rs == [] {
      assert c.MeterReads() + [] == c.MeterReads();
    } else {
      var next, read, before := AfterRead(c, rs[0]), ReadOf(rs[0]), c.MeterReads();
      assert AfterReads(c, rs) == AfterReads(next, rs[1..]);
      AfterReadsValue(next, rs[1..]);
      assert next.MeterReads() == before + [read];
      assert ReadsOf(rs) == [read] + ReadsOf(rs[1..]);
      assert (before + [read]) + ReadsOf(rs[1..]) == before + ([read] + ReadsOf(rs[1..]));
    }
  }

  /** The lines of several reads take the cursor through each read in turn. */
  lemma {:induction false} FoldBody(step: StepFunction, c: Cursor, rs: seq<ReadSource>)
    requires ReadsWrittenLines(step) && forall k :: 0 <= k < |rs| ==> Writable(rs[k])
    ensures Fold(step, c, BodyLines(rs)) == Completed(AfterReads(c, rs))
    decreases |rs|
  {
    if rs != [] {
      FoldRead(step, c, rs[0]);
      FoldAppend(step, c, ReadLines(rs[0]), BodyLines(rs[1..]));
      FoldBody(step, AfterRead(c, rs[0]), rs[1..]);
    }
  }

  /** The file start line counts the first line and nothing more. */
  lemma FoldFileStart(step: StepFunction)
    requires ReadsWrittenLines(step)
    ensures Fold(step, InitialCursor, [RecordTypeValue(FileStart)]) == Completed(InitialCursor.(currentIndex := 1))
  {
    assert [RecordTypeValue(FileStart)][1..] == [];
  }

  /** The file end line sets the end flag and leaves the reads alone. */
  lemma FoldFileEnd(step: StepFunction, c: Cursor)
    requires ReadsWrittenLines(step) && !c.fileClosed
    ensures Fold(step, c, [RecordTypeValue(FileEnd)]).Completed?
    ensures Fold(step, c, [RecordTypeValue(FileEnd)]).cursor.MeterReads() == c.MeterReads()
  {
    assert [RecordTypeValue(FileEnd)][1..] == [];
    assert step(c, RecordTypeValue(FileEnd)) == Success(c.(fileClosed := true, currentIndex := c.currentIndex + 1));
  }

  /** A whole written file, folded from the initial cursor, ends with exactly the reads written. */
  lemma FoldFile(step: StepFunction, rs: seq<ReadSource>)
    requires ReadsWrittenLines(step) && forall k :: 0 <= k < |rs| ==> Writable(rs[k])
    ensures Fold(step, InitialCursor, FileLines(rs)).Completed?
    ensures Fold(step, InitialCursor, FileLines(rs)).cursor.MeterReads() == ReadsOf(rs)
  {
    var start, end := RecordTypeValue(FileStart), RecordTypeValue(FileEnd);
    var begun := InitialCursor.(currentIndex := 1);
    var body := AfterReads(begun, rs);
    FoldFileStart(step);
    FoldAppend(step, InitialCursor, [start], BodyLines(rs));
    FoldBody(step, begun, rs);
    assert Fold(step, InitialCursor, [start] + BodyLines(rs)) == Completed(body);
    AfterReadsValue(begun, rs);
    FoldFileEnd(step, body);
    FoldAppend(step, InitialCursor, [start] + BodyLines(rs), [end]);
    assert begun.MeterReads() == [] && [] + ReadsOf(rs) == ReadsOf(rs);
  }

  /** A whole written file parses back to the reads written. */
  lemma ParseOfFileLines(rs: seq<ReadSource>)
    requires forall k :: 0 <= k < |rs| ==> Writable(rs[k])
    ensures Parse(FileLines(rs)) == Success(ReadsOf(rs))
  {
    StepReadsWrittenLines();
    FoldFile(Step, rs);
  }

  /** A line made of one field with no delimiter, starting with a printing character. */
  lemma LoneField(code: string)
    requires code != "" && !IsTrimmable(code[0]) && Delimiter !in code
    ensures !IsBlank(code) && Split(code) == [code]
  {
    assert !IsTrimmable(code[0]);
  }
  /**
   * Neither the file start nor the file end is demanded: the reads' own lines,
   * without either, parse to the same reads.
   */
  lemma ParseOfBodyLines(rs: seq<ReadSource>)
    requires forall k :: 0 <= k < |rs| ==> Writable(rs[k])
    ensures Parse(BodyLines(rs)) == Success(ReadsOf(rs))
  {
    StepReadsWrittenLines();
    FoldBody(Step, InitialCursor, rs);
    AfterReadsValue(InitialCursor, rs);
    assert [] + ReadsOf(rs) == ReadsOf(rs);
  }

  /**
   * The cursor outlives a parse: once a whole file has been read, the file
   * start of any further input is rejected and the cursor kept.
   */
  lemma SecondFileRejected(rs: seq<ReadSource>, more: seq<string>)
    requires forall k :: 0 <= k < |rs| ==> Writable(rs[k])
    ensures var c := Run(InitialCursor, FileLines(rs)).cursor;
      Run(c, [RecordTypeValue(FileStart)] + more) == Aborted(c, InvalidFileStart)
  {
    var lines := FileLines(rs);
    StepReadsWrittenLines();
    FoldFile(Step, rs);
    var c := Run(InitialCursor, lines).cursor;
    LoneField(RecordTypeValue(FileStart));
    assert lines[0] == RecordTypeValue(FileStart);
    NonBlankKeeps(lines, 0);
    RunCounts(InitialCursor, lines);
    assert c.currentIndex != 0;
    var start := [RecordTypeValue(FileStart)] + more;
    assert start[0] == RecordTypeValue(FileStart);
    StepOfLine(c, start[0]);
    RecordFileStart(c, Split(start[0]));
  }
  // ---------------------------------------------------------------------------
  // Parse results written back

  /** Some date of a non-empty volume map. */
  ghost function Pick(m: map<Date, MeterVolume>): (d: Date)
    requires m != map[]
    ensures d in m
  {
    var d :| d in m; d
  }

  /** The entries of a volume map, one per date, in some order. */
  ghost function EntriesOf(m: map<Date, MeterVolume>): (es: seq<Entry>)
    ensures forall k :: 0 <= k < |es| ==> es[k].date in m
    decreases m.Keys
  {
    if m == map[] then []
    else
      var d := Pick(m);
      assert (m - {d}).Keys < m.Keys;
      [Entry(d, m[d])] + EntriesOf(m - {d})
  }

  /** Applying the entries of a map adds the map over the volumes already there. */
  lemma {:induction false} ApplyEntriesOf(volumes: map<Date, MeterVolume>, m: map<Date, MeterVolume>)
    ensures Apply(volumes, EntriesOf(m)) == volumes + m
    decreases m.Keys
  {
    if m == map[] {
      assert volumes + m == volumes;
    } else {
      var d := Pick(m);
      var rest := m - {d};
      assert (m - {d}).Keys < m.Keys;
      var es := EntriesOf(m);
      assert es[0] == Entry(d, m[d]) && es[1..] == EntriesOf(rest);
      ApplyEntriesOf(volumes[d := m[d]], rest);
      assert volumes[d := m[d]] + rest == volumes + m;
    }
  }

  /** The source that writes a read: its identifier and the entries of its volume map. */
  ghost function SourceOf(v: MeterReadValue): ReadSource {
    ReadSource(v.nmi, EntriesOf(v.volumes))
  }

  ghost function SourcesOf(vs: seq<MeterReadValue>): (rs: seq<ReadSource>)
    ensures |rs| == |vs| && forall k :: 0 <= k < |vs| ==> rs[k] == SourceOf(vs[k])
  {
    if vs == [] then [] else [SourceOf(vs[0])] + SourcesOf(vs[1..])
  }

  /** Reading back the source of a read gives the read; a well-formed read's source can be written. */
  lemma SourceOfRead(v: MeterReadValue)
    ensures ReadOf(SourceOf(v)) == v
    ensures WellFormedRead(v) ==> Writable(SourceOf(v))
  {
    ApplyEntriesOf(map[], v.volumes);
    assert map[] + v.volumes == v.volumes;
  }

  /** Reads built one for one from the sources, in order. */
  lemma {:induction false} ReadsOfPointwise(rs: seq<ReadSource>, vs: seq<MeterReadValue>)
    requires |rs| == |vs| && forall k :: 0 <= k < |rs| ==> ReadOf(rs[k]) == vs[k]
    ensures ReadsOf(rs) == vs
    decreases |rs|
  {
    if rs != [] {
      ReadsOfPointwise(rs[1..], vs[1..]);
      assert vs == [vs[0]] + vs[1..];
    }
  }

  /** Reading back the sources of some reads gives those reads. */
  lemma ReadsOfSources(vs: seq<MeterReadValue>)
    ensures ReadsOf(SourcesOf(vs)) == vs
  {
    var rs := SourcesOf(vs);
    forall k | 0 <= k < |rs| ensures ReadOf(rs[k]) == vs[k] {
      SourceOfRead(vs[k]);
    }
    ReadsOfPointwise(rs, vs);
  }

  /**
   * Whatever a fresh parser accepts can be written out again as a file, and
   * that file parses to the same reads.
   */
  lemma ReparseOfParse(lines: seq<string>)
    requires Parse(lines).Success?
    ensures Parse(FileLines(SourcesOf(Parse(lines).value))) == Parse(lines)
  {
    var vs := Parse(lines).value;
    var rs := SourcesOf(vs);
    forall k | 0 <= k < |rs| ensures Writable(rs[k]) {
      SourceOfRead(vs[k]);
    }
    ParseOfFileLines(rs);
    ReadsOfSources(vs);
  }
}

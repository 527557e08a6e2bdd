/**
 * BinaryDataLoader: moves a data set between a CODEC and an Encog binary
 * (EGB) training file, in either direction, reporting progress as it goes.
 */
module Loader {
  import opened Records
  import opened Progress
  import opened Egb
  import opened Codec
  import opened Status

  /** The failures the loader lets through from the EGB file. */
  datatype LoadError =
    | FileNotFound  // opening a file that is not there
    | ReadPastEnd   // reading a value the body does not hold

  datatype Outcome = Done | Failed(error: LoadError)

  /** The body holds every record the header promises. */
  predicate Complete(image: EgbImage)
  {
    Offset(image.recordCount, image.inputCount + image.idealCount) <= |image.body|
  }

  /**
   * The number of whole records of width w, at most `limit`, that fit in
   * `length` values: the records an export reads before the body runs out.
   */
  function WholeRecords(length: nat, w: nat, limit: nat): (k: nat)
    ensures k <= limit && Offset(k, w) <= length
    ensures k < limit ==> length < Offset(k + 1, w)
    decreases limit
  {
    if Offset(limit, w) <= length then limit
    else WholeRecords(length, w, limit - 1)
  }

  /**
   * How many records an export of `image` hands to the CODEC: all of them
   * when the body is complete, otherwise the whole records before the body ends.
   */
  function ExportedCount(image: EgbImage): (k: nat)
    ensures k <= image.recordCount
    ensures Offset(k, image.inputCount + image.idealCount) <= |image.body|
    ensures Complete(image) <==> k == image.recordCount
  {
    WholeRecords(|image.body|, image.inputCount + image.idealCount, image.recordCount)
  }

  /** A short body holds |body| / (n + m) whole records. */
  lemma ExportedCountOfShortBody(image: EgbImage)
    requires !Complete(image)
    ensures image.inputCount + image.idealCount > 0
    ensures ExportedCount(image) == |image.body| / (image.inputCount + image.idealCount)
  {
    var w := image.inputCount + image.idealCount;
    OffsetIsProduct(image.recordCount, w);
    DivUnique(|image.body|, w, ExportedCount(image));
  }

  /** An export whose record i runs past the end of the body has exported exactly i records. */
  lemma ExportStopsAt(image: EgbImage, i: nat)
    requires i < image.recordCount
    requires Offset(i, image.inputCount + image.idealCount) <= |image.body|
             < Offset(i + 1, image.inputCount + image.idealCount)
    ensures !Complete(image) && ExportedCount(image) == i
  {
    var w := image.inputCount + image.idealCount;
    var k := ExportedCount(image);
    if k > i {
      OffsetMonotone(i + 1, k, w);
    } else if k < i {
      OffsetMonotone(k + 1, i, w);
    }
  }

  /**
   * Fills `buffer` with the next buffer.Length values of the file, in order.
   * `ok` is false when the body ends first; the values read until then are
   * consumed and the cursor stops at the end of the body.
   */
  method ReadVector(egb: EgbFile, buffer: array<Double>) returns (ok: bool)
    requires egb.mode == Mode.Reading && egb.cursor <= |egb.values|
    modifies egb`cursor, buffer
    ensures ok == (old(egb.cursor) + buffer.Length <= |egb.values|)
    ensures ok ==>
      && egb.cursor == old(egb.cursor) + buffer.Length
      && buffer[..] == egb.values[old(egb.cursor) .. egb.cursor]
    ensures !ok ==> egb.cursor == |egb.values|
  {
    for j := 0 to buffer.Length
      invariant egb.cursor == old(egb.cursor) + j <= |egb.values|
      invariant forall t :: 0 <= t < j ==> buffer[t] == egb.values[old(egb.cursor) + t]
    {
      var v;
      ok, v := egb.Read();
      if !ok {
        return;
      }
      buffer[j] := v;
    }
    ok := true;
  }

  /**
   * Reads record k of the body into `input` and `ideal`, input values first.
   * `ok` is false when the body ends inside the record; the cursor then
   * stops at the end of the body.
   */
  method ReadRecord(egb: EgbFile, input: array<Double>, ideal: array<Double>, ghost k: nat) returns (ok: bool)
    requires egb.mode == Mode.Reading && input != ideal
    requires egb.cursor == Offset(k, input.Length + ideal.Length) <= |egb.values|
    modifies egb`cursor, input, ideal
    ensures ok == (Offset(k + 1, input.Length + ideal.Length) <= |egb.values|)
    ensures ok ==>
      && egb.cursor == Offset(k + 1, input.Length + ideal.Length)
      && Record(input[..], ideal[..]) == Chunk(egb.values, input.Length, ideal.Length, k)
    ensures !ok ==> egb.cursor == |egb.values|
  {
    ok := ReadVector(egb, input);
    if ok {
      ok := ReadVector(egb, ideal);
    }
  }

  class BinaryDataLoader {
    /** The CODEC the loader reads from or writes to. */
    const codec: DataSetCodec
    /** Where progress goes; always the null reporter, which nothing outside the loader can replace. */
    const status: StatusReportable

    /** A loader over `codec`, reporting to the null reporter. */
    constructor (codec: DataSetCodec)
      ensures this.codec == codec && fresh(status) && status.log == []
    {
      this.codec := codec;
      status := new StatusReportable.NullStatusReportable();
    }

    /**
     * The import loop: streams every remaining CODEC record into the open
     * EGB file, input values then ideal values, reporting progress every
     * REPORT_INTERVAL records.
     */
    method ImportRecords(egb: EgbFile, input: array<Double>, ideal: array<Double>)
      requires codec.Valid() && codec.phase == Phase.Reading && codec.readIndex == 0 && codec.readCalls == 0
      requires egb.mode == Mode.Writing && egb.values == []
      requires input.Length == codec.inputSize && ideal.Length == codec.idealSize && input != ideal
      modifies egb`values, input, ideal, codec`readIndex, codec`readCalls, status
      ensures codec.Valid() && codec.readIndex == |codec.source|
      ensures codec.readCalls == |codec.source| + 1
      ensures egb.values == Flatten(codec.source)
      ensures status.log == old(status.log) + ProgressReports(0, |codec.source|, IMPORTING)
    {
      var index := 3;
      var currentRecord := 0;
      var lastUpdate := 0;
      ghost var source := codec.source;

      var more := codec.Read(input, ideal);
      while more
        invariant codec.Valid()
        invariant more ==>
          && codec.readIndex == currentRecord + 1
          && input[..] == source[currentRecord].input && ideal[..] == source[currentRecord].ideal
        invariant !more ==> codec.readIndex == currentRecord == |source|
        invariant codec.readCalls == currentRecord + 1
        invariant egb.values == Flatten(source[..currentRecord])
        invariant index == 3 + Offset(currentRecord, input.Length + ideal.Length)
        invariant 0 <= lastUpdate < REPORT_INTERVAL && lastUpdate == SinceReport(currentRecord)
        invariant status.log == old(status.log) + ProgressReports(0, currentRecord, IMPORTING)
        decreases |source| - currentRecord
      {
        egb.Write(input);
        egb.Write(ideal);
        FlattenPrefixStep(source, currentRecord);
        ProgressStep(0, currentRecord, IMPORTING, lastUpdate);

        index := index + input.Length;
        index := index + ideal.Length;
        currentRecord := currentRecord + 1;
        lastUpdate := lastUpdate + 1;
        if lastUpdate >= REPORT_INTERVAL {
          lastUpdate := 0;
          status.Report(0, currentRecord, IMPORTING);
        }

        more := codec.Read(input, ideal);
      }
      assert source[..currentRecord] == source;
    }

    /**
     * Imports every record of the CODEC into the EGB file `binaryFile`: the
     * file gets the CODEC's vector sizes, the records' values in order (input
     * then ideal), and the number of records as its record count.
     */
    method External2Binary(binaryFile: string, fs: FileSystem)
      requires codec.Valid()
      modifies codec`readIndex, codec`readCalls, codec`phase, status, fs
      ensures codec.Valid() && codec.phase == Phase.Closed && codec.readIndex == |codec.source|
      ensures codec.readCalls == |codec.source| + 1
      ensures fs.files == old(fs.files)[binaryFile := EgbImage(codec.inputSize, codec.idealSize,
                RecordCount(|Flatten(codec.source)|, codec.inputSize, codec.idealSize), Flatten(codec.source))]
      ensures status.log == old(status.log) + ImportLog(binaryFile, |codec.source|)
    {
      status.Report(0, 0, ImportStartText(binaryFile));

      var egb := new EgbFile(fs, binaryFile);
      ghost var before := fs.files;
      egb.Create(codec.inputSize, codec.idealSize);

      var input := new Double[codec.inputSize];
      var ideal := new Double[codec.idealSize];

      codec.PrepareRead();
      ImportRecords(egb, input, ideal);

      egb.Close();
      assert fs.files == before[binaryFile := EgbImage(egb.inputCount, egb.idealCount,
        RecordCount(|egb.values|, egb.inputCount, egb.idealCount), egb.values)];
      codec.Close();
      status.Report(0, 0, ImportDoneText(binaryFile));
      ImportLogAfter(old(status.log), binaryFile, |codec.source|);
    }

    /**
     * The export loop: hands the records of the open EGB file `image` to the
     * CODEC one by one, reporting progress every REPORT_INTERVAL records.
     * `ok` is false when the body ends before the last record the header
     * promises; the records read until then have been handed over.
     */
    method ExportRecords(egb: EgbFile, input: array<Double>, ideal: array<Double>, ghost image: EgbImage)
      returns (ok: bool)
      requires egb.mode == Mode.Reading && egb.cursor == 0
      requires image == EgbImage(egb.inputCount, egb.idealCount, egb.numberOfRecords, egb.values)
      requires input.Length == image.inputCount && ideal.Length == image.idealCount && input != ideal
      requires codec.phase == Phase.Writing && codec.sink == []
      modifies egb`cursor, input, ideal, codec`sink, status
      ensures codec.header == old(codec.header) && codec.phase == old(codec.phase)
      ensures ok == Complete(image)
      ensures ok ==> egb.cursor == Offset(image.recordCount, image.inputCount + image.idealCount)
      ensures codec.sink == Regroup(image.body, image.inputCount, image.idealCount, ExportedCount(image))
      ensures status.log == old(status.log) + ProgressReports(image.recordCount, ExportedCount(image), EXPORTING)
    {
      var currentRecord := 0;
      var lastUpdate := 0;

      // One pass per record the header promises.
      for i := 0 to egb.numberOfRecords
        invariant egb.mode == Mode.Reading && egb.values == image.body
        invariant egb.cursor == Offset(i, input.Length + ideal.Length) <= |image.body|
        invariant codec.sink == Regroup(image.body, image.inputCount, image.idealCount, i)
        invariant currentRecord == i
        invariant 0 <= lastUpdate < REPORT_INTERVAL && lastUpdate == SinceReport(i)
        invariant status.log == old(status.log) + ProgressReports(image.recordCount, i, EXPORTING)
      {
        ok := ReadRecord(egb, input, ideal, i);
        if !ok {
          ExportStopsAt(image, i);
          return;
        }
        codec.Write(input, ideal);
        ProgressStep(image.recordCount, currentRecord, EXPORTING, lastUpdate);

        currentRecord := currentRecord + 1;
        lastUpdate := lastUpdate + 1;
        if lastUpdate >= REPORT_INTERVAL {
          lastUpdate := 0;
          status.Report(egb.numberOfRecords, currentRecord, EXPORTING);
        }
      }
      ok := true;
    }

    /**
     * Exports the EGB file `binaryFile` through the CODEC: the CODEC is told
     * the file's record count and vector sizes, then receives the file's
     * records in order. An error from the file ends the export at once.
     */
    method Binary2External(binaryFile: string, fs: FileSystem) returns (outcome: Outcome)
      modifies codec`sink, codec`header, codec`phase, status, fs
      ensures fs.files == old(fs.files)
      ensures binaryFile !in old(fs.files) ==>
        && outcome == Failed(FileNotFound)
        && codec.sink == old(codec.sink) && codec.header == old(codec.header) && codec.phase == old(codec.phase)
        && status.log == old(status.log) + [ExportStart(binaryFile)]
      ensures binaryFile in old(fs.files) ==>
        var image := old(fs.files)[binaryFile];
        && codec.header == WriteHeader(image.recordCount, image.inputCount, image.idealCount)
        && codec.sink == Regroup(image.body, image.inputCount, image.idealCount, ExportedCount(image))
        && (if Complete(image) then
              && outcome == Done && codec.phase == Phase.Closed
              && status.log == old(status.log) + ExportLog(binaryFile, image.recordCount)
            else
              && outcome == Failed(ReadPastEnd) && codec.phase == Phase.Writing
              && status.log == old(status.log) + [ExportStart(binaryFile)]
                               + ProgressReports(image.recordCount, ExportedCount(image), EXPORTING))
    {
      status.Report(0, 0, ExportStartText(binaryFile));

      var egb: EgbFile := new EgbFile(fs, binaryFile);
      var found := egb.Open();
      assert fs.files == old(fs.files);
      if !found {
        return Failed(FileNotFound);
      }

      ghost var image := old(fs.files)[binaryFile];
      assert egb.numberOfRecords == image.recordCount && egb.values == image.body;
      codec.PrepareWrite(egb.numberOfRecords, egb.inputCount, egb.idealCount);

      var inputCount := egb.inputCount;
      var idealCount := egb.idealCount;

      var input := new Double[inputCount];
      var ideal := new Double[idealCount];

      var ok := ExportRecords(egb, input, ideal, image);
      if !ok {
        return Failed(ReadPastEnd);
      }

      egb.Close();
      codec.Close();
      status.Report(0, 0, ExportDoneText(binaryFile));
      ExportLogAfter(old(status.log), binaryFile, image.recordCount);
      return Done;
    }
  }

  /**
   * Importing a data set into an EGB file and exporting that file again
   * hands the same records, in the same order, to the second CODEC.
   */
  method ImportThenExport(records: seq<Record>, n: nat, m: nat, binaryFile: string)
    returns (exported: seq<Record>, outcome: Outcome)
    requires Uniform(records, n, m) && n + m > 0
    ensures outcome == Done && exported == records
  {
    var fs := new FileSystem();
    var source := new DataSetCodec(n, m, records);
    var importer := new BinaryDataLoader(source);
    importer.External2Binary(binaryFile, fs);

    var target := new DataSetCodec(n, m, []);
    var exporter := new BinaryDataLoader(target);
    RegroupFlatten(records, n, m);
    RecordCountOfFlatten(records, n, m);
    outcome := exporter.Binary2External(binaryFile, fs);
    exported := target.sink;
  }

  /**
   * Exporting a complete EGB file and importing what the CODEC received
   * into a new file reproduces the header and the body's whole records.
   */
  method ExportThenImport(image: EgbImage, binaryFile: string) returns (copy: EgbImage, outcome: Outcome)
    requires Complete(image) && image.inputCount + image.idealCount > 0
    ensures outcome == Done
    ensures copy == EgbImage(image.inputCount, image.idealCount, image.recordCount,
                             image.body[..Offset(image.recordCount, image.inputCount + image.idealCount)])
  {
    var n, m := image.inputCount, image.idealCount;
    var fs := new FileSystem();
    fs.files := map[binaryFile := image];
    var external := new DataSetCodec(n, m, []);
    var exporter := new BinaryDataLoader(external);
    outcome := exporter.Binary2External(binaryFile, fs);

    ghost var records := Regroup(image.body, n, m, image.recordCount);
    FlattenRegroup(image.body, n, m, image.recordCount);
    RecordCountOfFlatten(records, n, m);
    var reread := new DataSetCodec(n, m, external.sink);
    var importer := new BinaryDataLoader(reread);
    var copies := new FileSystem();
    importer.External2Binary(binaryFile, copies);
    copy := copies.files[binaryFile];
  }

  /** Importing an empty data set writes a file with no values and reports only its start and end. */
  method ImportEmpty(n: nat, m: nat, binaryFile: string) returns (image: EgbImage, ghost reports: seq<StatusReport>)
    ensures image == EgbImage(n, m, 0, [])
    ensures reports == [ImportStart(binaryFile), ImportDone(binaryFile)]
  {
    var fs := new FileSystem();
    var source := new DataSetCodec(n, m, []);
    var loader := new BinaryDataLoader(source);
    loader.External2Binary(binaryFile, fs);
    image := fs.files[binaryFile];
    reports := loader.status.log;
  }

  /** Exporting a file whose header holds no records writes nothing to the CODEC. */
  method ExportEmpty(n: nat, m: nat, body: seq<Double>, binaryFile: string)
    returns (exported: seq<Record>, outcome: Outcome, ghost reports: seq<StatusReport>)
    ensures outcome == Done && exported == []
    ensures reports == [ExportStart(binaryFile), ExportDone(binaryFile)]
  {
    var fs := new FileSystem();
    fs.files := map[binaryFile := EgbImage(n, m, 0, body)];
    var target := new DataSetCodec(n, m, []);
    var loader := new BinaryDataLoader(target);
    outcome := loader.Binary2External(binaryFile, fs);
    exported := target.sink;
    reports := loader.status.log;
  }
}

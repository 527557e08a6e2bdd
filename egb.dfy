/**
 * The Encog binary (EGB) training file as the loader sees it: a header with
 * the input and ideal vector sizes and the record count, and a body of
 * values. The byte encoding and the file handles are not modelled; the disk
 * is a map from file names to file images.
 */
module Egb {
  import opened Records

  /** What a closed EGB file holds. */
  datatype EgbImage = EgbImage(inputCount: nat, idealCount: nat, recordCount: nat, body: seq<Double>)

  /** The files on disk, by name. */
  class FileSystem {
    var files: map<string, EgbImage>

    constructor ()
      ensures files == map[]
    {
      files := map[];
    }
  }

  datatype Mode = Unopened | Writing | Reading | Closed

  /** An EGB file opened either for writing (Create) or for reading (Open). */
  class EgbFile {
    const fs: FileSystem
    const path: string
    var mode: Mode
    var inputCount: nat
    var idealCount: nat
    var numberOfRecords: nat
    /** The body: values appended so far when writing, the stored body when reading. */
    var values: seq<Double>
    /** The read cursor: how many body values have been read. */
    var cursor: nat

    constructor (fs: FileSystem, path: string)
      ensures this.fs == fs && this.path == path
      ensures mode == Unopened && values == [] && cursor == 0
    {
      this.fs := fs;
      this.path := path;
      mode := Unopened;
      inputCount, idealCount, numberOfRecords := 0, 0, 0;
      values, cursor := [], 0;
    }

    /** Creates (or truncates) the file with a provisional header that holds no records. */
    method Create(inputCount: nat, idealCount: nat)
      modifies this, fs
      ensures mode == Writing && values == [] && cursor == 0
      ensures this.inputCount == inputCount && this.idealCount == idealCount && numberOfRecords == 0
      ensures fs.files == old(fs.files)[path := EgbImage(inputCount, idealCount, 0, [])]
    {
      mode := Writing;
      this.inputCount, this.idealCount, numberOfRecords := inputCount, idealCount, 0;
      values, cursor := [], 0;
      fs.files := fs.files[path := EgbImage(inputCount, idealCount, 0, [])];
    }

    /** Appends every value of `v` to the body. */
    method Write(v: array<Double>)
      requires mode == Writing
      modifies this`values
      ensures values == old(values) + v[..]
    {
      values := values + v[..];
    }

    /** Opens an existing file and reads its header; `found` is false when there is no such file. */
    method Open() returns (found: bool)
      modifies this
      ensures found == (path in fs.files)
      ensures found ==>
        && mode == Reading && cursor == 0
        && inputCount == fs.files[path].inputCount && idealCount == fs.files[path].idealCount
        && numberOfRecords == fs.files[path].recordCount && values == fs.files[path].body
      ensures !found ==>
        && mode == old(mode) && cursor == old(cursor) && values == old(values)
        && inputCount == old(inputCount) && idealCount == old(idealCount)
        && numberOfRecords == old(numberOfRecords)
    {
      found := path in fs.files;
      if found {
        var image := fs.files[path];
        mode := Reading;
        inputCount, idealCount, numberOfRecords := image.inputCount, image.idealCount, image.recordCount;
        values, cursor := image.body, 0;
      }
    }

    /** Reads the next body value; `ok` is false, and nothing moves, past the end of the body. */
    method Read() returns (ok: bool, v: Double)
      requires mode == Reading
      modifies this`cursor
      ensures ok == (old(cursor) < |values|)
      ensures ok ==> v == values[old(cursor)] && cursor == old(cursor) + 1
      ensures !ok ==> cursor == old(cursor)
    {
      ok := cursor < |values|;
      if ok {
        v := values[cursor];
        cursor := cursor + 1;
      } else {
        v := 0;
      }
    }

    /**
     * Closes the file. After writing, the header is finalised with the number
     * of whole records in the body; after reading, the disk is left as it was.
     */
    method Close()
      modifies this`mode, fs
      ensures mode == Closed
      ensures old(mode) == Writing ==> fs.files == old(fs.files)[path :=
        EgbImage(inputCount, idealCount, RecordCount(|values|, inputCount, idealCount), values)]
      ensures old(mode) != Writing ==> fs.files == old(fs.files)
    {
      if mode == Writing {
        fs.files := fs.files[path := EgbImage(inputCount, idealCount, RecordCount(|values|, inputCount, idealCount), values)];
      }
      mode := Closed;
    }
  }
}

/**
 * A data-set CODEC: the adapter between the loader and an external format
 * such as CSV. Reading streams the records of `source`; writing appends the
 * records it is handed to `sink`. Concrete formats are not modelled.
 */
module Codec {
  import opened Records

  datatype Phase = Idle | Reading | Writing | Closed

  /** The arguments of the last PrepareWrite: record count, input size, ideal size. */
  datatype WriteHeader = WriteHeader(recordCount: nat, inputSize: nat, idealSize: nat)

  class DataSetCodec {
    const inputSize: nat
    const idealSize: nat
    /** The records of the external data set, in order. */
    const source: seq<Record>
    /** How many records of `source` have been read since PrepareRead. */
    var readIndex: nat
    /** How many times Read has been called since PrepareRead. */
    ghost var readCalls: nat
    /** The records written since PrepareWrite, in order. */
    var sink: seq<Record>
    var header: WriteHeader
    var phase: Phase

    /** Every source record fits the declared vector sizes, and reading stays within the source. */
    ghost predicate Valid()
      reads this
    {
      Uniform(source, inputSize, idealSize) && readIndex <= |source|
    }

    constructor (inputSize: nat, idealSize: nat, source: seq<Record>)
      requires Uniform(source, inputSize, idealSize)
      ensures Valid()
      ensures this.inputSize == inputSize && this.idealSize == idealSize && this.source == source
      ensures readIndex == 0 && sink == [] && phase == Idle
    {
      this.inputSize, this.idealSize, this.source := inputSize, idealSize, source;
      readIndex, sink := 0, [];
      readCalls := 0;
      header := WriteHeader(0, 0, 0);
      phase := Idle;
    }

    /** Starts reading the source from its first record. */
    method PrepareRead()
      requires Valid()
      modifies this`readIndex, this`readCalls, this`phase
      ensures Valid() && phase == Reading && readIndex == 0 && readCalls == 0
    {
      readIndex, phase := 0, Reading;
      readCalls := 0;
    }

    /**
     * Copies the next source record into `input` and `ideal`; `more` is false,
     * and nothing changes, once the source is exhausted.
     */
    method Read(input: array<Double>, ideal: array<Double>) returns (more: bool)
      requires Valid() && phase == Reading
      requires input.Length == inputSize && ideal.Length == idealSize && input != ideal
      modifies this`readIndex, this`readCalls, input, ideal
      ensures Valid() && readCalls == old(readCalls) + 1
      ensures more == (old(readIndex) < |source|)
      ensures more ==>
        && readIndex == old(readIndex) + 1
        && input[..] == source[old(readIndex)].input && ideal[..] == source[old(readIndex)].ideal
      ensures !more ==> readIndex == old(readIndex) && input[..] == old(input[..]) && ideal[..] == old(ideal[..])
    {
      more := readIndex < |source|;
      if more {
        var r := source[readIndex];
        forall i | 0 <= i < input.Length {
          input[i] := r.input[i];
        }
        forall i | 0 <= i < ideal.Length {
          ideal[i] := r.ideal[i];
        }
        readIndex := readIndex + 1;
      }
      readCalls := readCalls + 1;
    }

    /** Starts a new output of `recordCount` records of the given vector sizes. */
    method PrepareWrite(recordCount: nat, inputSize: nat, idealSize: nat)
      modifies this`sink, this`header, this`phase
      ensures phase == Writing && sink == []
      ensures header == WriteHeader(recordCount, inputSize, idealSize)
    {
      sink, header, phase := [], WriteHeader(recordCount, inputSize, idealSize), Writing;
    }

    /** Writes one record. */
    method Write(input: array<Double>, ideal: array<Double>)
      requires phase == Writing
      modifies this`sink
      ensures sink == old(sink + [Record(input[..], ideal[..])])
    {
      sink := sink + [Record(input[..], ideal[..])];
    }

    method Close()
      modifies this`phase
      ensures phase == Closed
    {
      phase := Closed;
    }
  }
}

/**
 * Configuration/CompressorSettings.cs and CompressorSettingsBuilder.cs: the validated
 * settings of a compression run and the fluent builder that fills them in.
 * `Environment.ProcessorCount` is a parameter of the builder methods that read it.
 */
module Settings {
  import opened Binary
  import opened Wrappers
  import opened Sizes
  import opened Text

  /** `CompressorSettings`: an immutable record once the constructor has accepted its arguments. */
  datatype CompressorSettings = CompressorSettings(
    inputFileReadingBufferSize: int,
    threadsCount: int,
    compressingQueueSize: int,
    offsetLabel: string,
    writeBlockLengthIntoMimetypeSection: bool)

  /** What the constructor guarantees about every settings value it returns. */
  predicate ValidSettings(s: CompressorSettings) {
    s.inputFileReadingBufferSize > 0 && s.threadsCount > 0 && s.compressingQueueSize > 0
    && !IsNullOrWhiteSpace(Some(s.offsetLabel))
  }

  /**
   * The constructor: a buffer size, thread count or queue size that is not positive, or a
   * null or white-space label, throws `ArgumentException`; otherwise every argument is
   * stored unchanged.
   */
  function NewCompressorSettings(inputFileReadingBufferSize: int, threadsCount: int, compressingQueueSize: int,
                                 offsetLabel: Option<string>, writeBlockLengthIntoMimetypeSection: bool)
    : (r: Result<CompressorSettings, Exception>)
    ensures r.Success? <==> inputFileReadingBufferSize > 0 && threadsCount > 0 && compressingQueueSize > 0
                            && !IsNullOrWhiteSpace(offsetLabel)
    ensures r.Failure? ==> r.error == ArgumentException
    ensures r.Success? ==> ValidSettings(r.value) && offsetLabel.Some?
    ensures r.Success? ==> r.value == CompressorSettings(inputFileReadingBufferSize, threadsCount,
                                                         compressingQueueSize, offsetLabel.value,
                                                         writeBlockLengthIntoMimetypeSection)
  {
    if inputFileReadingBufferSize <= 0 then Failure(ArgumentException)
    else if threadsCount <= 0 then Failure(ArgumentException)
    else if compressingQueueSize <= 0 then Failure(ArgumentException)
    else if IsNullOrWhiteSpace(offsetLabel) then Failure(ArgumentException)
    else Success(CompressorSettings(inputFileReadingBufferSize, threadsCount, compressingQueueSize,
                                    offsetLabel.value, writeBlockLengthIntoMimetypeSection))
  }

  /** `ParallelDecompressionBufferSize`: the input reading buffer size. */
  function ParallelDecompressionBufferSize(s: CompressorSettings): (r: int)
    requires ValidSettings(s)
    ensures r > 0 && r == s.inputFileReadingBufferSize
  {
    s.inputFileReadingBufferSize
  }

  /** `MaxParallelDecompressionBufferSize`: 128 MiB. */
  function MaxParallelDecompressionBufferSize(s: CompressorSettings): (r: int)
    ensures r == 134217728
  {
    Megabytes128();
    Megabytes(128)
  }

  const InputStreamThreads: int := 1
  const OutputStreamThreads: int := 1
  const DefaultParallelismCpuMultiplier: int := 1
  /** The default input buffer size, just under the large-object-heap threshold. */
  const LohThreashold: int := 84988
  const DefaultOffsetLabel: string := "========"

  /** The default label is not white space, so the settings constructor accepts it. */
  lemma DefaultOffsetLabelIsValid()
    ensures !IsNullOrWhiteSpace(Some(DefaultOffsetLabel))
  {
    NonSpaceCharacterCounts(DefaultOffsetLabel, 0);
  }

  /** The queue size the builder picks when none is given: the threads left after the reader and the writer, at least 1. */
  function DefaultQueueSize(threadsCount: int): (r: int)
    requires IsInt32(threadsCount)
    ensures r >= 1
    ensures threadsCount >= 3 ==> r == threadsCount - 2
    ensures -0x8000_0000 + 2 <= threadsCount <= 3 ==> r == 1
  {
    var left := WrapInt32(threadsCount - InputStreamThreads - OutputStreamThreads);
    if left < 1 then 1 else left
  }

  /**
   * The settings `GetSettings` builds from the builder's fields: unset parallelism
   * (a zero thread count or queue size), an unset buffer size or an unset label throw
   * `InvalidOperationException`; the remaining checks are the constructor's.
   */
  function SettingsFrom(threadsCount: int, compressingQueueSize: int, offsetLabel: Option<string>,
                        inputFileReadingBufferSize: int): (r: Result<CompressorSettings, Exception>)
    ensures threadsCount == 0 || compressingQueueSize == 0 || inputFileReadingBufferSize == 0 || offsetLabel.None?
            ==> r == Failure(InvalidOperationException)
    ensures threadsCount > 0 && compressingQueueSize > 0 && inputFileReadingBufferSize > 0
            && !IsNullOrWhiteSpace(offsetLabel)
            ==> r == Success(CompressorSettings(inputFileReadingBufferSize, threadsCount, compressingQueueSize,
                                                offsetLabel.value, true))
    ensures r.Success? ==> ValidSettings(r.value) && r.value.writeBlockLengthIntoMimetypeSection
  {
    if threadsCount == 0 || compressingQueueSize == 0 then Failure(InvalidOperationException)
    else if inputFileReadingBufferSize == 0 then Failure(InvalidOperationException)
    else if offsetLabel.None? then Failure(InvalidOperationException)
    else NewCompressorSettings(inputFileReadingBufferSize, threadsCount, compressingQueueSize, offsetLabel, true)
  }

  class CompressorSettingsBuilder {
    var threadsCount: int
    var compressingQueueSize: int
    var offsetLabel: Option<string>
    var inputFileReadingBufferSize: int

    /** Fields an `int` can hold, and a label that, once set, is not white space. */
    predicate Valid()
      reads this
    {
      IsInt32(threadsCount) && IsInt32(compressingQueueSize) && IsInt32(inputFileReadingBufferSize)
      && (offsetLabel.Some? ==> !IsNullOrWhiteSpace(offsetLabel))
      && compressingQueueSize >= 0 && inputFileReadingBufferSize >= 0
    }

    /** A new builder: nothing set. */
    constructor ()
      ensures Valid()
      ensures threadsCount == 0 && compressingQueueSize == 0 && offsetLabel.None? && inputFileReadingBufferSize == 0
    {
      threadsCount := 0;
      compressingQueueSize := 0;
      offsetLabel := None;
      inputFileReadingBufferSize := 0;
    }

    method SetDefaultOffsetLabel()
      requires Valid()
      modifies this
      ensures Valid() && offsetLabel == Some(DefaultOffsetLabel)
      ensures threadsCount == old(threadsCount) && compressingQueueSize == old(compressingQueueSize)
      ensures inputFileReadingBufferSize == old(inputFileReadingBufferSize)
    {
      DefaultOffsetLabelIsValid();
      offsetLabel := Some(DefaultOffsetLabel);
    }

    /** `SetOffsetLabel`: a null or white-space label throws and leaves the builder as it was. */
    method SetOffsetLabel(value: Option<string>) returns (r: Result<(), Exception>)
      requires Valid()
      modifies this
      ensures Valid()
      ensures r.Success? <==> !IsNullOrWhiteSpace(value)
      ensures r.Failure? ==> r.error == ArgumentException && offsetLabel == old(offsetLabel)
      ensures r.Success? ==> offsetLabel == value
      ensures threadsCount == old(threadsCount) && compressingQueueSize == old(compressingQueueSize)
      ensures inputFileReadingBufferSize == old(inputFileReadingBufferSize)
    {
      if IsNullOrWhiteSpace(value) {
        return Failure(ArgumentException);
      }
      offsetLabel := value;
      return Success(());
    }

    /**
     * `SetParallelismByThreadsPerCpu`: a multiplier that is not positive throws before any
     * change. Otherwise the thread count becomes processors × multiplier in unchecked
     * 32-bit arithmetic, and then an explicit queue size that is not positive throws
     * (after the thread count has been stored); without one the default queue size is taken.
     */
    method SetParallelismByThreadsPerCpu(processorCount: int, threadsPerCpu: int, queueSize: Option<int>)
      returns (r: Result<(), Exception>)
      requires Valid() && 1 <= processorCount && IsInt32(processorCount) && IsInt32(threadsPerCpu)
      requires queueSize.Some? ==> IsInt32(queueSize.value)
      modifies this
      ensures Valid()
      ensures r.Success? <==> threadsPerCpu > 0 && (queueSize.Some? ==> queueSize.value > 0)
      ensures r.Failure? ==> r.error == ArgumentException
      ensures threadsPerCpu <= 0 ==> threadsCount == old(threadsCount) && compressingQueueSize == old(compressingQueueSize)
      ensures threadsPerCpu > 0 ==> threadsCount == WrapInt32(processorCount * threadsPerCpu)
      ensures threadsPerCpu > 0 && queueSize.Some? && queueSize.value <= 0 ==> compressingQueueSize == old(compressingQueueSize)
      ensures r.Success? && queueSize.Some? ==> compressingQueueSize == queueSize.value
      ensures r.Success? && queueSize.None? ==> compressingQueueSize == DefaultQueueSize(threadsCount)
      ensures offsetLabel == old(offsetLabel) && inputFileReadingBufferSize == old(inputFileReadingBufferSize)
    {
      if threadsPerCpu <= 0 {
        return Failure(ArgumentException);
      }
      threadsCount := WrapInt32(processorCount * threadsPerCpu);
      if queueSize.Some? {
        if queueSize.value <= 0 {
          return Failure(ArgumentException);
        }
        compressingQueueSize := queueSize.value;
      } else {
        compressingQueueSize := DefaultQueueSize(threadsCount);
      }
      return Success(());
    }

    /** `SetDefaultPararllelism`: one thread per processor. */
    method SetDefaultPararllelism(processorCount: int)
      requires Valid() && 1 <= processorCount && IsInt32(processorCount)
      modifies this
      ensures Valid()
      ensures threadsCount == processorCount && compressingQueueSize == DefaultQueueSize(processorCount)
      ensures offsetLabel == old(offsetLabel) && inputFileReadingBufferSize == old(inputFileReadingBufferSize)
    {
      var r := SetParallelismByThreadsPerCpu(processorCount, DefaultParallelismCpuMultiplier, None);
    }

    /** `SetInputFileReadingBufferSize`: a size that is not positive throws and changes nothing. */
    method SetInputFileReadingBufferSize(bufferSize: int) returns (r: Result<(), Exception>)
      requires Valid() && IsInt32(bufferSize)
      modifies this
      ensures Valid()
      ensures r.Success? <==> bufferSize > 0
      ensures r.Failure? ==> r.error == ArgumentException && inputFileReadingBufferSize == old(inputFileReadingBufferSize)
      ensures r.Success? ==> inputFileReadingBufferSize == bufferSize
      ensures threadsCount == old(threadsCount) && compressingQueueSize == old(compressingQueueSize)
      ensures offsetLabel == old(offsetLabel)
    {
      if bufferSize <= 0 {
        return Failure(ArgumentException);
      }
      inputFileReadingBufferSize := bufferSize;
      return Success(());
    }

    method SetDefaultInputFileReadingBufferSize()
      requires Valid()
      modifies this
      ensures Valid() && inputFileReadingBufferSize == LohThreashold
      ensures threadsCount == old(threadsCount) && compressingQueueSize == old(compressingQueueSize)
      ensures offsetLabel == old(offsetLabel)
    {
      inputFileReadingBufferSize := LohThreashold;
    }

    /** `GetSettings`: the settings the fields describe, always with the size hint written into the header. */
    method GetSettings() returns (r: Result<CompressorSettings, Exception>)
      requires Valid()
      ensures r == SettingsFrom(threadsCount, compressingQueueSize, offsetLabel, inputFileReadingBufferSize)
    {
      if threadsCount == 0 || compressingQueueSize == 0 {
        return Failure(InvalidOperationException);
      }
      if inputFileReadingBufferSize == 0 {
        return Failure(InvalidOperationException);
      }
      if offsetLabel.None? {
        return Failure(InvalidOperationException);
      }
      r := NewCompressorSettings(inputFileReadingBufferSize, threadsCount, compressingQueueSize, offsetLabel, true);
    }
  }

  /**
   * The builder's defaults make valid settings: one thread per processor, the default queue
   * size, the default buffer size and the default label.
   */
  lemma DefaultsMakeSettings(processorCount: int)
    requires 1 <= processorCount && IsInt32(processorCount)
    ensures SettingsFrom(processorCount, DefaultQueueSize(processorCount), Some(DefaultOffsetLabel), LohThreashold)
            == Success(CompressorSettings(LohThreashold, processorCount, DefaultQueueSize(processorCount),
                                          DefaultOffsetLabel, true))
  {
    DefaultOffsetLabelIsValid();
  }

  /**
   * A thread multiplier large enough to overflow makes a negative thread count that passes
   * `GetSettings`'s "is it set" check and is then rejected by the constructor.
   */
  lemma OverflowingThreadCountIsRejected()
    ensures WrapInt32(2 * 0x4000_0000) == -0x8000_0000
    ensures SettingsFrom(WrapInt32(2 * 0x4000_0000), 1, Some(DefaultOffsetLabel), LohThreashold) == Failure(ArgumentException)
  {
    DefaultOffsetLabelIsValid();
  }
}

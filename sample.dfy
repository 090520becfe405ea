/** The check of `GetSampleFile` on the BRR sample once it has been read
    into memory: it must fit the slot reserved for it after the hook. */
module Sample {
  import opened Errors
  import opened Hex

  const MaxSampleSize: nat := 0xA71

  /** The size check of `GetSampleFile`: the sample is returned unchanged
      when it has at most 0xA71 bytes. */
  function CheckSample(sample: seq<byte>): (r: Result<seq<byte>>)
    ensures r.Success? <==> |sample| <= MaxSampleSize
    ensures r.Success? ==> r.value == sample
    ensures r.Failure? ==> r.error == SampleTooLarge
  {
    if |sample| > MaxSampleSize then Failure(SampleTooLarge) else Success(sample)
  }
}

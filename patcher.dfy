/** Writing the catalog into the ROM image in place (`ApplyPatch`), and the
    sequence of checks and writes that a run performs on the loaded inputs. */
module Patcher {
  import opened Errors
  import opened Hex
  import opened Patches
  import opened Rom
  import opened Sample
  import opened Catalog

  /** `ApplyPatch`: builds the catalog for the sample and copies each payload
      byte by byte into the image, patch after patch. The image keeps its
      length and ends up as the patches applied in order to the old image.
      Every write must land inside the image; a checked ROM and sample
      guarantee this (`CatalogFits`). */
  method ApplyPatch(rom: array<byte>, sample: seq<byte>)
    requires AllFit(DecodedPatches(sample), rom.Length)
    modifies rom
    ensures GetPatches(sample) == Success(DecodedPatches(sample))
    ensures rom[..] == ApplyAll(old(rom[..]), DecodedPatches(sample))
  {
    var catalog := GetPatches(sample);
    var patches := catalog.value;
    assert patches == DecodedPatches(sample);
    ghost var original := rom[..];
    var i := 0;
    while i < |patches|
      invariant 0 <= i <= |patches|
      invariant AllFit(patches[..i], |original|)
      invariant rom[..] == ApplyAll(original, patches[..i])
    {
      WritePatch(rom, patches[i]);
      assert patches[..i + 1][..i] == patches[..i];
      i := i + 1;
    }
    assert patches[..i] == patches;
  }

  /** The inner loop of `ApplyPatch`: the payload of one patch copied byte by
      byte from its offset on. */
  method WritePatch(rom: array<byte>, patch: Patch)
    requires End(patch) <= rom.Length
    modifies rom
    ensures rom[..] == Write(old(rom[..]), patch)
  {
    var offset := patch.offset;
    var j := 0;
    while j < |patch.bytes|
      invariant 0 <= j <= |patch.bytes|
      invariant offset == patch.offset + j
      invariant forall k :: 0 <= k < rom.Length ==>
                  rom[k] == if patch.offset <= k < offset then patch.bytes[k - patch.offset] else old(rom[k])
    {
      rom[offset] := patch.bytes[j];
      offset := offset + 1;
      j := j + 1;
    }
    forall k | 0 <= k < rom.Length
      ensures rom[..][k] == Write(old(rom[..]), patch)[k]
    {
      WriteAt(old(rom[..]), patch, k);
    }
  }

  /** Each patch's range of the patched image holds exactly its payload,
      and every byte no patch covers is as before. */
  lemma PatchedContents(rom: seq<byte>, sample: seq<byte>)
    requires |rom| >= MinRomSize && |sample| <= MaxSampleSize
    ensures AllFit(DecodedPatches(sample), |rom|)
    ensures var ps, patched := DecodedPatches(sample), ApplyAll(rom, DecodedPatches(sample));
      && (forall i, k :: 0 <= i < |ps| && Covers(ps[i], k) ==> patched[k] == ps[i].bytes[k - ps[i].offset])
      && (forall k :: 0 <= k < |rom| && !Covered(ps, k) ==> patched[k] == rom[k])
  {
    var ps := DecodedPatches(sample);
    CatalogFits(sample, |rom|);
    CatalogDisjoint(sample);
    var patched := ApplyAll(rom, ps);
    forall i, k | 0 <= i < |ps| && Covers(ps[i], k)
      ensures patched[k] == ps[i].bytes[k - ps[i].offset]
    {
      ApplyAllDisjoint(rom, ps, i, k);
    }
    forall k | 0 <= k < |rom| && !Covered(ps, k)
      ensures patched[k] == rom[k]
    {
      ApplyAllOutside(rom, ps, k);
    }
  }

  /** A range that holds `s` followed by EB EB holds `s` at its start and
      the two sentinel bytes right after. */
  lemma SentinelTerminated(image: seq<byte>, at: nat, s: seq<byte>)
    requires at + |s| + 2 <= |image| && image[at..at + |s| + 2] == s + [0xEB, 0xEB]
    ensures image[at..at + |s|] == s
    ensures image[at + |s|] == 0xEB && image[at + |s| + 1] == 0xEB
  {
    var written := image[at..at + |s| + 2];
    assert image[at..at + |s|] == written[..|s|];
    assert image[at + |s|] == written[|s|] && image[at + |s| + 1] == written[|s| + 1];
  }

  /** The sample sits at 0x12803A followed by EB EB. */
  lemma PatchedSample(rom: seq<byte>, sample: seq<byte>)
    requires |rom| >= MinRomSize && |sample| <= MaxSampleSize
    ensures AllFit(DecodedPatches(sample), |rom|)
    ensures var patched := ApplyAll(rom, DecodedPatches(sample));
      && patched[SampleOffset..SampleOffset + |sample|] == sample
      && patched[SampleOffset + |sample|] == 0xEB && patched[SampleOffset + |sample| + 1] == 0xEB
  {
    var ps := DecodedPatches(sample);
    CatalogFits(sample, |rom|);
    CatalogDisjoint(sample);
    CatalogTail(sample);
    ApplyAllPayload(rom, ps, 7);
    SentinelTerminated(ApplyAll(rom, ps), SampleOffset, sample);
  }

  /** The hook carries the sample length little-endian at 0x128013. */
  lemma PatchedLengthField(rom: seq<byte>, sample: seq<byte>)
    requires |rom| >= MinRomSize && |sample| <= MaxSampleSize
    ensures AllFit(DecodedPatches(sample), |rom|)
    ensures var patched := ApplyAll(rom, DecodedPatches(sample));
      && patched[HookOffset + LengthFieldIndex] as int == |sample| % 256
      && patched[HookOffset + LengthFieldIndex + 1] as int == |sample| / 256
  {
    var ps := DecodedPatches(sample);
    CatalogFits(sample, |rom|);
    CatalogDisjoint(sample);
    HookLengthField(sample);
    assert |ps[6].bytes| == 58 && ps[6].offset == HookOffset;
    ApplyAllDisjoint(rom, ps, 6, HookOffset + LengthFieldIndex);
    ApplyAllDisjoint(rom, ps, 6, HookOffset + LengthFieldIndex + 1);
  }

  /** The patched image of an accepted ROM is accepted again: no patch
      touches the header. */
  lemma PatchedKeepsHeader(rom: seq<byte>, sample: seq<byte>)
    requires IsValidRom(rom) && |sample| <= MaxSampleSize
    ensures AllFit(DecodedPatches(sample), |rom|)
    ensures IsValidRom(ApplyAll(rom, DecodedPatches(sample)))
  {
    var ps := DecodedPatches(sample);
    PatchedContents(rom, sample);
    CatalogAvoidsHeader(sample);
    var patched := ApplyAll(rom, ps);
    forall k | HeaderOffset <= k < HeaderOffset + HeaderLength
      ensures patched[k] == rom[k]
    {
      assert !Covered(ps, k);
    }
    HeaderOnlyMatters(rom, patched);
  }

  /** What the patched image looks like: the hook with the sample length at
      0x128000, the sample and its sentinel at 0x12803A, the fixed patches at
      their offsets, and every other byte, the header included, as before.
      The result still passes the ROM check, and patching it again changes
      nothing. */
  lemma PatchedImage(rom: seq<byte>, sample: seq<byte>)
    requires IsValidRom(rom) && |sample| <= MaxSampleSize
    ensures AllFit(DecodedPatches(sample), |rom|)
    ensures var patched := ApplyAll(rom, DecodedPatches(sample));
      && |patched| == |rom|
      && IsValidRom(patched)
      && patched[SampleOffset..SampleOffset + |sample|] == sample
      && patched[SampleOffset + |sample|] == 0xEB && patched[SampleOffset + |sample| + 1] == 0xEB
      && patched[HookOffset + LengthFieldIndex] as int == |sample| % 256
      && patched[HookOffset + LengthFieldIndex + 1] as int == |sample| / 256
      && (forall i, k :: 0 <= i < |DecodedPatches(sample)| && Covers(DecodedPatches(sample)[i], k)
            ==> patched[k] == DecodedPatches(sample)[i].bytes[k - DecodedPatches(sample)[i].offset])
      && (forall k :: 0 <= k < |rom| && !Covered(DecodedPatches(sample), k) ==> patched[k] == rom[k])
      && ApplyAll(patched, DecodedPatches(sample)) == patched
  {
    PatchedContents(rom, sample);
    PatchedSample(rom, sample);
    PatchedLengthField(rom, sample);
    PatchedKeepsHeader(rom, sample);
    ApplyAllIdempotent(rom, DecodedPatches(sample));
  }

  /** A run on inputs already read: the ROM is checked first, then the
      sample, and only when both pass is the catalog written. On a failure
      the image is left as it was. */
  method Run(rom: array<byte>, sample: seq<byte>) returns (outcome: Outcome)
    modifies rom
    ensures rom.Length < MinRomSize ==> outcome == Fail(RomNotExpanded)
    ensures rom.Length >= MinRomSize && !HeaderMatches(old(rom[..])) ==> outcome == Fail(RomHeaderMismatch)
    ensures IsValidRom(old(rom[..])) && |sample| > MaxSampleSize ==> outcome == Fail(SampleTooLarge)
    ensures outcome.Pass? <==> IsValidRom(old(rom[..])) && |sample| <= MaxSampleSize
    ensures outcome.Fail? ==> rom[..] == old(rom[..])
    ensures outcome.Pass? ==> AllFit(DecodedPatches(sample), rom.Length) && rom[..] == ApplyAll(old(rom[..]), DecodedPatches(sample))
    ensures outcome.Pass? ==> IsValidRom(rom[..])
  {
    outcome := CheckRom(rom);
    if outcome.Fail? {
      return;
    }
    var checked := CheckSample(sample);
    if checked.Failure? {
      return Fail(checked.error);
    }
    ghost var original := rom[..];
    CatalogFits(sample, rom.Length);
    ApplyPatch(rom, checked.value);
    PatchedKeepsHeader(original, sample);
  }
}

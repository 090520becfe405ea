/** `GetPatches`: the ordered list of patches that makes the "oof" sound
    effect play a custom BRR sample. Six small fixed patches redirect the
    sound engine; a 58-byte hook at 0x128000, with the sample's length
    spliced in, loads the new data; the sample itself follows at 0x12803A,
    closed by the sentinel EB EB. */
module Catalog {
  import opened Errors
  import opened Hex
  import opened Patches
  import opened Rom
  import opened Sample

  /** The six fixed patches, their payloads given as the bytes that the
      hex strings of the source spell. */
  const FixedPatches: seq<Patch> := [
    Patch(0x8CF, [0x5C, 0x00, 0x80, 0x25]),      // jump from the SPC load routine to the hook
    Patch(0xC806C, [0x88, 0x31, 0x00, 0x00]),    // pointer of instrument $9 in SPC memory
    Patch(0xCFB18, [0xBE, 0xBE]),                // first sigil, over unused data
    Patch(0xD1BF5, [0x09]),                      // the "oof" effect uses instrument $9
    Patch(0xD1BF8, [0xB6]),                      // pitch shift
    Patch(0xD1C55, [0x7F, 0x7F, 0x00, 0x10, 0x1A, 0x00, 0x00, 0x7F, 0x01])  // instrument $9 parameters
  ]

  const HookOffset: nat := 0x128000
  const SampleOffset: nat := 0x12803A

  /** The hook routine before and after its two-byte length field. */
  const HookHead: seq<byte> :=
    [0xB7, 0x00, 0xC8, 0xC8, 0xC9, 0xBE, 0xBE, 0xF0, 0x09, 0xC9, 0xEB, 0xEB, 0xF0, 0x1B, 0x5C, 0xD3,
     0x88, 0x00, 0xA2]
  const HookTail: seq<byte> :=
    [0xA9, 0x80, 0x25, 0x85, 0x01, 0xA9, 0x3A, 0x80, 0x85, 0x00, 0xA0, 0x00, 0x00, 0xA9, 0x88, 0x31,
     0x5C, 0xD8, 0x88, 0x00, 0xA9, 0x80, 0x19, 0x64, 0x00, 0x85, 0x01, 0xA2, 0xAE, 0x00, 0xA0, 0x1A,
     0x7B, 0x5C, 0xD4, 0x88, 0x00]

  /** Position of the length field inside the hook payload. */
  const LengthFieldIndex: nat := 19

  /** The second sigil, appended to the sample. */
  const SentinelHex: string := "EBEB"

  /** The sample length written with `"X4"` and its two byte pairs swapped,
      so that the low byte comes first. */
  function LengthField(len: nat): (s: string)
    ensures |s| == 4 && IsHexString(s)
  {
    var h := FormatHex(len, 4);
    [h[2], h[3], h[0], h[1]]
  }

  /** For a length that fits in 16 bits the field decodes to the length in
      little-endian order. */
  lemma LengthFieldLittleEndian(len: nat)
    requires len <= 0xFFFF
    ensures DecodeHex(LengthField(len)) == [(len % 256) as byte, (len / 256) as byte]
  {
    FormatX4Digits(len);
    var s := LengthField(len);
    var d := DecodeHex(s);
    DecodeHexAt(s, 0);
    DecodeHexAt(s, 1);
    assert d[0] as int == (len / 16 % 16) * 16 + len % 16;
    assert d[1] as int == (len / 4096) * 16 + len / 256 % 16;
    NibblesOfShort(len);
    assert d == [d[0], d[1]];
  }

  lemma NibblesOfShort(n: nat)
    requires n <= 0xFFFF
    ensures (n / 16 % 16) * 16 + n % 16 == n % 256
    ensures (n / 4096) * 16 + n / 256 % 16 == n / 256
  {
  }

  /** The hook as the source writes it: a hex string with the length field
      interpolated between the two fixed parts. */
  function HookHex(len: nat): (s: string)
    ensures IsHexString(s) && |s| == 2 * 58
  {
    HexConcat(ToHexString(HookHead), LengthField(len));
    HexConcat(ToHexString(HookHead) + LengthField(len), ToHexString(HookTail));
    ToHexString(HookHead) + LengthField(len) + ToHexString(HookTail)
  }

  /** `GetPatches(customSample, archipelago: false)`: construction from the
      hex strings never fails and yields the decoded catalog. */
  function GetPatches(sample: seq<byte>): (r: Result<seq<Patch>>)
    ensures r == Success(DecodedPatches(sample))
  {
    HookDecodes(|sample|);
    SamplePayloadDecodes(sample);
    match NewPatch(HookOffset, HookHex(|sample|))
    case Failure(e) => Failure(e)
    case Success(hook) =>
      match NewPatch(SampleOffset, ToHexString(sample) + SentinelHex)
      case Failure(e) => Failure(e)
      case Success(data) => Success(FixedPatches + [hook, data])
  }

  lemma SentinelDecodes()
    ensures IsHexString(SentinelHex) && DecodeHex(SentinelHex) == [0xEB, 0xEB]
  {
  }

  /** The hook decodes to the fixed head, the decoded length field and the
      fixed tail: 58 bytes whatever the sample's length. */
  lemma {:induction false} HookDecodes(len: nat)
    ensures IsHexString(HookHex(len))
    ensures DecodeHex(HookHex(len)) == HookHead + DecodeHex(LengthField(len)) + HookTail
    ensures |DecodeHex(HookHex(len))| == 58
  {
    var head, field, tail := ToHexString(HookHead), LengthField(len), ToHexString(HookTail);
    DecodeToHex(HookHead);
    DecodeToHex(HookTail);
    HexConcat(head, field);
    HexConcat(head + field, tail);
  }

  /** The sample patch decodes to the sample followed by the sentinel. */
  lemma {:induction false} SamplePayloadDecodes(sample: seq<byte>)
    ensures IsHexString(ToHexString(sample) + SentinelHex)
    ensures DecodeHex(ToHexString(sample) + SentinelHex) == sample + [0xEB, 0xEB]
  {
    DecodeToHex(sample);
    SentinelDecodes();
    HexConcat(ToHexString(sample), SentinelHex);
  }

  /** The hook payload for a sample of `len` bytes, as decoded. */
  function HookBytes(len: nat): (b: seq<byte>)
    ensures |b| == 58
  {
    HookHead + DecodeHex(LengthField(len)) + HookTail
  }

  /** The catalog as a list of decoded patches: the six fixed patches, then
      the hook, then the sample followed by the sentinel. */
  function DecodedPatches(sample: seq<byte>): seq<Patch> {
    FixedPatches + [Patch(HookOffset, HookBytes(|sample|)), Patch(SampleOffset, sample + [0xEB, 0xEB])]
  }

  /** The last two entries of the catalog: the hook, then the sample
      followed by the sentinel. */
  lemma CatalogTail(sample: seq<byte>)
    ensures |DecodedPatches(sample)| == 8
    ensures DecodedPatches(sample)[6] == Patch(HookOffset, HookBytes(|sample|))
    ensures DecodedPatches(sample)[7] == Patch(SampleOffset, sample + [0xEB, 0xEB])
  {
  }

  /** The offsets of a list of patches, in order. */
  function Offsets(ps: seq<Patch>): (r: seq<nat>)
    ensures |r| == |ps|
  {
    seq(|ps|, i requires 0 <= i < |ps| => ps[i].offset)
  }

  /** The payload lengths of a list of patches, in order. */
  function Lengths(ps: seq<Patch>): (r: seq<nat>)
    ensures |r| == |ps|
  {
    seq(|ps|, i requires 0 <= i < |ps| => |ps[i].bytes|)
  }

  /** Eight patches at fixed offsets, in this order; every payload has a
      fixed length except the sample's. */
  lemma CatalogShape(sample: seq<byte>)
    ensures Offsets(DecodedPatches(sample)) == [0x8CF, 0xC806C, 0xCFB18, 0xD1BF5, 0xD1BF8, 0xD1C55, 0x128000, 0x12803A]
    ensures Lengths(DecodedPatches(sample)) == [4, 4, 2, 1, 1, 9, 58, |sample| + 2]
  {
    var ps := DecodedPatches(sample);
    assert |ps| == 8;
    var offs := Offsets(ps);
    assert offs[0] == 0x8CF && offs[1] == 0xC806C && offs[2] == 0xCFB18 && offs[3] == 0xD1BF5;
    assert offs[4] == 0xD1BF8 && offs[5] == 0xD1C55 && offs[6] == 0x128000 && offs[7] == 0x12803A;
    var lens := Lengths(ps);
    assert lens[0] == 4 && lens[1] == 4 && lens[2] == 2 && lens[3] == 1;
    assert lens[4] == 1 && lens[5] == 9 && lens[6] == 58 && lens[7] == |sample| + 2;
  }

  /** The hook carries the sample length little-endian at bytes 19 and 20,
      and every other hook byte is fixed. */
  lemma HookLengthField(sample: seq<byte>)
    requires |sample| <= 0xFFFF
    ensures DecodedPatches(sample)[6].bytes == HookHead + [(|sample| % 256) as byte, (|sample| / 256) as byte] + HookTail
    ensures DecodedPatches(sample)[6].bytes[LengthFieldIndex] as int == |sample| % 256
    ensures DecodedPatches(sample)[6].bytes[LengthFieldIndex + 1] as int == |sample| / 256
  {
    LengthFieldLittleEndian(|sample|);
  }

  /** Each patch ends before the next one begins. */
  predicate Sorted(ps: seq<Patch>) {
    forall i :: 0 <= i < |ps| - 1 ==> End(ps[i]) <= ps[i + 1].offset
  }

  /** Consecutive patches that do not overlap make a list of patches that
      pairwise do not overlap. */
  lemma {:induction false} SortedDisjoint(ps: seq<Patch>)
    requires Sorted(ps)
    ensures forall i, j :: 0 <= i < j < |ps| ==> End(ps[i]) <= ps[j].offset
    decreases |ps|
  {
    if |ps| > 1 {
      SortedDisjoint(ps[1..]);
      forall i, j | 0 <= i < j < |ps|
        ensures End(ps[i]) <= ps[j].offset
      {
        if i > 0 {
          assert ps[1..][i - 1] == ps[i] && ps[1..][j - 1] == ps[j];
        } else if j > 1 {
          assert ps[1..][0] == ps[1] && ps[1..][j - 1] == ps[j];
          assert End(ps[1]) <= ps[j].offset;
        }
      }
    }
  }

  /** The patches are sorted by offset and no two of them overlap; the hook
      ends exactly where the sample begins. */
  lemma CatalogDisjoint(sample: seq<byte>)
    ensures PairwiseDisjoint(DecodedPatches(sample))
    ensures forall i, j :: 0 <= i < j < 8 ==> End(DecodedPatches(sample)[i]) <= DecodedPatches(sample)[j].offset
    ensures End(DecodedPatches(sample)[6]) == SampleOffset
  {
    var ps := DecodedPatches(sample);
    assert End(ps[0]) <= ps[1].offset && End(ps[1]) <= ps[2].offset && End(ps[2]) <= ps[3].offset;
    assert End(ps[3]) <= ps[4].offset && End(ps[4]) <= ps[5].offset && End(ps[5]) <= ps[6].offset;
    assert End(ps[6]) == ps[7].offset;
    assert Sorted(ps);
    SortedDisjoint(ps);
  }

  /** For a ROM that passes the size check and a sample that passes the
      sample check, every patch lies inside the ROM; the last byte written
      is at 0x12803A + 0xA71 + 1. */
  lemma CatalogFits(sample: seq<byte>, romLength: nat)
    requires romLength >= MinRomSize && |sample| <= MaxSampleSize
    ensures AllFit(DecodedPatches(sample), romLength)
    ensures End(DecodedPatches(sample)[7]) <= SampleOffset + MaxSampleSize + 2 <= MinRomSize
  {
    CatalogDisjoint(sample);
    CatalogShape(sample);
    var ps := DecodedPatches(sample);
    assert End(ps[7]) == SampleOffset + |sample| + 2;
  }

  /** No patch touches the ROM header at 0xFFB0..0xFFDF. */
  lemma CatalogAvoidsHeader(sample: seq<byte>)
    ensures forall i, k :: 0 <= i < |DecodedPatches(sample)| && HeaderOffset <= k < HeaderOffset + HeaderLength
              ==> !Covers(DecodedPatches(sample)[i], k)
  {
    CatalogDisjoint(sample);
    CatalogShape(sample);
    var ps := DecodedPatches(sample);
    assert ps[0].offset == 0x8CF && |ps[0].bytes| == 4;
    assert ps[1].offset == 0xC806C;
  }
}

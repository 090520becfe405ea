/** The check of `GetRomFile` on the image once it has been read into
    memory: the ROM must be expanded to 2 MiB and carry the header of the
    Japanese v1.0 release at 0xFFB0. */
module Rom {
  import opened Errors
  import opened Hex

  const MinRomSize: nat := 2097152
  const HeaderOffset: nat := 0xFFB0
  const HeaderLength: nat := 48

  /** The header of the Japanese v1.0 release, as the bytes that the hex
      string of the source spells. */
  const ExpectedHeader: seq<byte> := [
    0xA4, 0x8F, 0xAA, 0xC1, 0x7E, 0x6B, 0xAD, 0xE0, 0x02, 0xD0, 0x06, 0xAF, 0x56, 0xF3, 0x7E, 0xD0,
    0x17, 0xAF, 0x57, 0xF3, 0x7E, 0xF0, 0x03, 0x9C, 0xE0, 0x02, 0xA9, 0x0C, 0x85, 0x4B, 0xA9, 0x2A,
    0xA6, 0x1B, 0xF0, 0x02, 0xA9, 0x14, 0x85, 0x11, 0x6B, 0xA9, 0x0C, 0x85, 0x4B, 0xA9, 0x2A, 0xA6]

  /** The 48 bytes at 0xFFB0 are the expected header. */
  predicate HeaderMatches(rom: seq<byte>) {
    |rom| >= HeaderOffset + HeaderLength &&
    rom[HeaderOffset..HeaderOffset + HeaderLength] == ExpectedHeader
  }

  /** What the checks in `GetRomFile` accept. */
  predicate IsValidRom(rom: seq<byte>) {
    |rom| >= MinRomSize && HeaderMatches(rom)
  }

  /** The checks of `GetRomFile` on the bytes read: first the size, then the
      header byte by byte, failing at the first difference. */
  method CheckRom(rom: array<byte>) returns (outcome: Outcome)
    ensures outcome.Pass? <==> IsValidRom(rom[..])
    ensures rom.Length < MinRomSize ==> outcome == Fail(RomNotExpanded)
    ensures rom.Length >= MinRomSize && !HeaderMatches(rom[..]) ==> outcome == Fail(RomHeaderMismatch)
  {
    if rom.Length < MinRomSize {
      return Fail(RomNotExpanded);
    }
    var matches := MatchesAt(rom, HeaderOffset, ExpectedHeader);
    if !matches {
      return Fail(RomHeaderMismatch);
    }
    return Pass;
  }

  /** The header loop of `GetRomFile`: the bytes from `offset` on are compared
      one by one with `expected`, stopping at the first difference. */
  method MatchesAt(rom: array<byte>, offset: nat, expected: seq<byte>) returns (matches: bool)
    requires offset + |expected| <= rom.Length
    ensures matches <==> rom[offset..offset + |expected|] == expected
  {
    var position := offset;
    var i := 0;
    while i < |expected|
      invariant 0 <= i <= |expected|
      invariant position == offset + i
      invariant forall j :: 0 <= j < i ==> rom[offset + j] == expected[j]
    {
      if rom[position] != expected[i] {
        assert rom[offset..offset + |expected|][i] != expected[i];
        return false;
      }
      position := position + 1;
      i := i + 1;
    }
    assert rom[offset..offset + |expected|] == expected;
    return true;
  }

  /** Changing any one header byte of an accepted image makes it rejected. */
  lemma HeaderByteChangeRejected(rom: seq<byte>, i: nat, v: byte)
    requires IsValidRom(rom) && i < HeaderLength && v != rom[HeaderOffset + i]
    ensures !IsValidRom(rom[HeaderOffset + i := v])
  {
    var changed := rom[HeaderOffset + i := v];
    assert changed[HeaderOffset..HeaderOffset + HeaderLength][i] != rom[HeaderOffset..HeaderOffset + HeaderLength][i];
  }

  /** An image that agrees with an accepted one on the header bytes and is
      at least as long is accepted too. */
  lemma HeaderOnlyMatters(rom: seq<byte>, other: seq<byte>)
    requires IsValidRom(rom) && |other| >= MinRomSize
    requires forall k :: HeaderOffset <= k < HeaderOffset + HeaderLength ==> other[k] == rom[k]
    ensures IsValidRom(other)
  {
    assert other[HeaderOffset..HeaderOffset + HeaderLength] == rom[HeaderOffset..HeaderOffset + HeaderLength];
  }
}

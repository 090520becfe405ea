/** A patch is a payload of bytes to be written at an absolute offset of the
    ROM image. This module defines the patch, its construction from a hex
    string (the `Patch` constructor), and what writing a list of patches in
    order does to an image, as functions on byte sequences. */
module Patches {
  import opened Errors
  import opened Hex

  datatype Patch = Patch(offset: nat, bytes: seq<byte>)

  /** The `Patch(offset, byteStr)` constructor: the payload is the decoded hex
      string; a malformed string makes construction fail. */
  function NewPatch(offset: nat, byteStr: string): (r: Result<Patch>)
    ensures r.Success? <==> IsHexString(byteStr)
    ensures r.Success? ==> r.value.offset == offset && r.value.bytes == DecodeHex(byteStr)
    ensures r.Failure? ==> r.error == InvalidHexString(byteStr)
  {
    var bytes :- ParseByteString(byteStr);
    Success(Patch(offset, bytes))
  }

  /** The first position after the patch. */
  function End(p: Patch): nat {
    p.offset + |p.bytes|
  }

  /** The patch writes the byte at position `k`. */
  predicate Covers(p: Patch, k: int) {
    p.offset <= k < End(p)
  }

  /** Every patch lies inside an image of `n` bytes. */
  predicate AllFit(ps: seq<Patch>, n: nat) {
    forall i :: 0 <= i < |ps| ==> End(ps[i]) <= n
  }

  /** No two patches write the same byte. */
  predicate PairwiseDisjoint(ps: seq<Patch>) {
    forall i, j :: 0 <= i < j < |ps| ==> End(ps[i]) <= ps[j].offset || End(ps[j]) <= ps[i].offset
  }

  /** Some patch of the list writes the byte at position `k`. */
  predicate Covered(ps: seq<Patch>, k: int) {
    exists i :: 0 <= i < |ps| && Covers(ps[i], k)
  }

  /** The image after the payload of `p` is copied over it at `p.offset`. */
  function Write(rom: seq<byte>, p: Patch): (r: seq<byte>)
    requires End(p) <= |rom|
    ensures |r| == |rom|
  {
    rom[..p.offset] + p.bytes + rom[End(p)..]
  }

  /** Writing a patch puts the payload in the covered range and leaves every
      other byte as it was. */
  lemma WriteAt(rom: seq<byte>, p: Patch, k: int)
    requires End(p) <= |rom| && 0 <= k < |rom|
    ensures Write(rom, p)[k] == if Covers(p, k) then p.bytes[k - p.offset] else rom[k]
  {
  }

  /** The image after the patches are written one after the other, in list order. */
  function ApplyAll(rom: seq<byte>, ps: seq<Patch>): (r: seq<byte>)
    requires AllFit(ps, |rom|)
    ensures |r| == |rom|
    decreases |ps|
  {
    if ps == [] then rom
    else
      Write(ApplyAll(rom, ps[..|ps| - 1]), ps[|ps| - 1])
  }

  /** A byte that no patch covers keeps its value. */
  lemma {:induction false} ApplyAllOutside(rom: seq<byte>, ps: seq<Patch>, k: int)
    requires AllFit(ps, |rom|) && 0 <= k < |rom|
    requires !Covered(ps, k)
    ensures ApplyAll(rom, ps)[k] == rom[k]
    decreases |ps|
  {
    if ps != [] {
      var init := ps[..|ps| - 1];
      assert !Covered(init, k);
      ApplyAllOutside(rom, init, k);
      WriteAt(ApplyAll(rom, init), ps[|ps| - 1], k);
    }
  }

  /** A byte covered by patch `i` and by no later patch holds patch `i`'s
      payload byte: the last writer wins. */
  lemma {:induction false} ApplyAllLastWriter(rom: seq<byte>, ps: seq<Patch>, i: nat, k: int)
    requires AllFit(ps, |rom|) && i < |ps| && Covers(ps[i], k)
    requires forall j :: i < j < |ps| ==> !Covers(ps[j], k)
    ensures 0 <= k < |rom|
    ensures ApplyAll(rom, ps)[k] == ps[i].bytes[k - ps[i].offset]
    decreases |ps|
  {
    var last := ps[|ps| - 1];
    var init := ps[..|ps| - 1];
    if i == |ps| - 1 {
      WriteAt(ApplyAll(rom, init), last, k);
    } else {
      assert init[i] == ps[i];
      ApplyAllLastWriter(rom, init, i, k);
      WriteAt(ApplyAll(rom, init), last, k);
    }
  }

  /** With pairwise disjoint patches, each patch's range holds exactly its payload. */
  lemma ApplyAllDisjoint(rom: seq<byte>, ps: seq<Patch>, i: nat, k: int)
    requires AllFit(ps, |rom|) && PairwiseDisjoint(ps) && i < |ps| && Covers(ps[i], k)
    ensures 0 <= k < |rom|
    ensures ApplyAll(rom, ps)[k] == ps[i].bytes[k - ps[i].offset]
  {
    ApplyAllLastWriter(rom, ps, i, k);
  }

  /** With pairwise disjoint patches, each patch's whole range is its payload. */
  lemma ApplyAllPayload(rom: seq<byte>, ps: seq<Patch>, i: nat)
    requires AllFit(ps, |rom|) && PairwiseDisjoint(ps) && i < |ps|
    ensures ApplyAll(rom, ps)[ps[i].offset..End(ps[i])] == ps[i].bytes
  {
    var p := ps[i];
    forall k | 0 <= k < |p.bytes|
      ensures ApplyAll(rom, ps)[p.offset..End(p)][k] == p.bytes[k]
    {
      ApplyAllDisjoint(rom, ps, i, p.offset + k);
    }
  }

  /** Only covered bytes can change. */
  lemma ApplyAllChanges(rom: seq<byte>, ps: seq<Patch>, k: int)
    requires AllFit(ps, |rom|) && 0 <= k < |rom|
    requires ApplyAll(rom, ps)[k] != rom[k]
    ensures Covered(ps, k)
  {
    if !Covered(ps, k) {
      ApplyAllOutside(rom, ps, k);
    }
  }

  /** A covered byte has a last patch that covers it. */
  lemma {:induction false} LastCover(ps: seq<Patch>, k: int) returns (i: nat)
    requires Covered(ps, k)
    ensures i < |ps| && Covers(ps[i], k)
    ensures forall j :: i < j < |ps| ==> !Covers(ps[j], k)
    decreases |ps|
  {
    if Covers(ps[|ps| - 1], k) {
      i := |ps| - 1;
    } else {
      var init := ps[..|ps| - 1];
      var w :| 0 <= w < |ps| && Covers(ps[w], k);
      assert init[w] == ps[w];
      i := LastCover(init, k);
      assert init[i] == ps[i];
    }
  }

  /** Writing the list a second time changes nothing: each byte has the same
      last writer in both passes. */
  lemma ApplyAllIdempotent(rom: seq<byte>, ps: seq<Patch>)
    requires AllFit(ps, |rom|)
    ensures ApplyAll(ApplyAll(rom, ps), ps) == ApplyAll(rom, ps)
  {
    var once := ApplyAll(rom, ps);
    var twice := ApplyAll(once, ps);
    forall k | 0 <= k < |rom|
      ensures twice[k] == once[k]
    {
      if Covered(ps, k) {
        var i := LastCover(ps, k);
        ApplyAllLastWriter(rom, ps, i, k);
        ApplyAllLastWriter(once, ps, i, k);
      } else {
        ApplyAllOutside(once, ps, k);
      }
    }
  }
}

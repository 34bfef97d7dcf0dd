/**
 * The permission catalogue the role builder validates against. The real
 * enumeration of permission flags is a parameter here: a catalogue is the
 * sequence of defined flags in declaration order, each flag identified by
 * the offset of its bit in a 64-bit mask.
 */
module Permissions {
  import opened Bits

  /** One permission flag; its raw value is the single bit 2^offset. */
  datatype Permission = Permission(offset: nat)

  /** The raw mask of a single flag. */
  function Raw(p: Permission): (r: nat)
    ensures forall k: nat :: TestBit(r, k) <==> k == p.offset
  {
    forall k: nat ensures TestBit(Pow2(p.offset), k) <==> k == p.offset {
      TestBitPow2(p.offset, k);
    }
    Pow2(p.offset)
  }

  /**
   * A well-formed catalogue: every flag sits below the sign bit of a Java
   * long, so every raw value and their union are non-negative longs.
   */
  predicate ValidCatalogue(catalogue: seq<Permission>)
  {
    forall i :: 0 <= i < |catalogue| ==> catalogue[i].offset < 63
  }

  /** The bit positions some flag of the catalogue occupies. */
  ghost predicate Defined(catalogue: seq<Permission>, k: nat)
  {
    exists p :: p in catalogue && p.offset == k
  }

  /** ALL_PERMISSIONS: the OR of the raw values of every defined flag. */
  function AllPermissions(catalogue: seq<Permission>): (all: nat)
    ensures forall k: nat :: TestBit(all, k) <==> Defined(catalogue, k)
  {
    if catalogue == [] then
      assert forall k: nat :: !TestBit(0, k) by {
        forall k: nat ensures !TestBit(0, k) { TestBitZero(k); }
      }
      0
    else
      var rest := AllPermissions(catalogue[1..]);
      var all := BitOr(Raw(catalogue[0]), rest);
      assert forall k: nat :: TestBit(all, k) <==> Defined(catalogue, k) by {
        forall k: nat ensures TestBit(all, k) <==> Defined(catalogue, k) {
          TestBitOr(Raw(catalogue[0]), rest, k);
          if Defined(catalogue, k) {
            var p :| p in catalogue && p.offset == k;
            if p != catalogue[0] {
              assert p in catalogue[1..];
            }
          }
          if Defined(catalogue[1..], k) {
            var p :| p in catalogue[1..] && p.offset == k;
            assert p in catalogue;
          }
        }
      }
      all
  }

  /** ALL_PERMISSIONS of a well-formed catalogue fits in a non-negative Java long. */
  lemma {:induction false} AllPermissionsFitsLong(catalogue: seq<Permission>)
    requires ValidCatalogue(catalogue)
    ensures AllPermissions(catalogue) < Pow2(63)
  {
    if catalogue != [] {
      AllPermissionsFitsLong(catalogue[1..]);
      Pow2Below(catalogue[0].offset, 63);
      BitOrBelow(Raw(catalogue[0]), AllPermissions(catalogue[1..]), 63);
    }
  }

  /**
   * The flags a mask decodes to, in catalogue order: every defined flag
   * whose bit is set in the mask. Bits that belong to no flag decode to
   * nothing.
   */
  function Decode(catalogue: seq<Permission>, mask: int): (flags: seq<Permission>)
    ensures forall p :: p in flags <==> p in catalogue && TestBit(mask, p.offset)
    ensures |flags| <= |catalogue|
  {
    if catalogue == [] then []
    else
      var rest := Decode(catalogue[1..], mask);
      if TestBit(mask, catalogue[0].offset) then [catalogue[0]] + rest else rest
  }

  /**
   * A mask made only of defined bits is at most ALL_PERMISSIONS. The
   * converse fails: the numeric bound also admits undefined bits that lie
   * below the highest defined one.
   */
  lemma DefinedMaskWithinBound(catalogue: seq<Permission>, mask: nat)
    requires forall k: nat :: TestBit(mask, k) ==> Defined(catalogue, k)
    ensures mask <= AllPermissions(catalogue)
  {
    BitsIncludedLe(mask, AllPermissions(catalogue));
  }

  /** Every flag of the catalogue decodes from ALL_PERMISSIONS. */
  lemma DecodeAll(catalogue: seq<Permission>)
    ensures forall p :: p in Decode(catalogue, AllPermissions(catalogue)) <==> p in catalogue
  {
    forall p | p in catalogue
      ensures TestBit(AllPermissions(catalogue), p.offset)
    {
      assert Defined(catalogue, p.offset);
    }
  }
}

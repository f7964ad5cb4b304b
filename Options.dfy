/**
 The two option masks with which a snapshot test chooses which environment
 descriptors go into a reference-image file name. Both are NS_OPTIONS over
 NSUInteger; the model takes NSUInteger as 64 bits wide. The two vocabularies
 share one bit layout but stay distinct types, so a mask of one kind cannot be
 passed where the other is expected.
 */
module SnapshotOptions {

  /** The underlying NSUInteger bit mask. */
  type Mask = bv64

  /** A mask is a single flag when exactly one of its bits is set. */
  predicate IsSingleBit(m: Mask) {
    m != 0 && m & (m - 1) == 0
  }

  /** A flag counts as set in a mask when all of its bits are set there. */
  predicate HasBits(mask: Mask, flag: Mask) {
    mask & flag == flag
  }

  // The bit layout shared by both vocabularies. `None` is the bit 1 << 0,
  // not the empty mask.
  const NoneBit: Mask := 1 << 0
  const DeviceBit: Mask := 1 << 1
  const OSBit: Mask := 1 << 2
  const ScreenSizeBit: Mask := 1 << 3

  /** The four flags named by each vocabulary. */
  predicate IsNamedFlag(f: Mask) {
    f == NoneBit || f == DeviceBit || f == OSBit || f == ScreenSizeBit
  }

  /** FBSnapshotTestCaseAgnosticOption: which parts the file name is 'agnostic' on. */
  datatype AgnosticOption = AgnosticOption(bits: Mask) {
    /** Bitwise union of two masks, as `a | b` in the source language. */
    function Union(other: AgnosticOption): AgnosticOption {
      AgnosticOption(bits | other.bits)
    }

    predicate Has(flag: AgnosticOption) {
      HasBits(bits, flag.bits)
    }
  }

  const AgnosticNone := AgnosticOption(NoneBit)
  const AgnosticDevice := AgnosticOption(DeviceBit)
  const AgnosticOS := AgnosticOption(OSBit)
  const AgnosticScreenSize := AgnosticOption(ScreenSizeBit)

  /** FBSnapshotTestCaseFileNameIncludeOption: which parts the file name includes. */
  datatype FileNameIncludeOption = FileNameIncludeOption(bits: Mask) {
    /** Bitwise union of two masks, as `a | b` in the source language. */
    function Union(other: FileNameIncludeOption): FileNameIncludeOption {
      FileNameIncludeOption(bits | other.bits)
    }

    predicate Has(flag: FileNameIncludeOption) {
      HasBits(bits, flag.bits)
    }
  }

  const IncludeNone := FileNameIncludeOption(NoneBit)
  const IncludeDevice := FileNameIncludeOption(DeviceBit)
  const IncludeOS := FileNameIncludeOption(OSBit)
  const IncludeScreenSize := FileNameIncludeOption(ScreenSizeBit)

  /** Each named flag is one bit, and no two named flags share a bit. */
  lemma NamedFlagsAreDistinctSingleBits(f: Mask, g: Mask)
    requires IsNamedFlag(f) && IsNamedFlag(g)
    ensures IsSingleBit(f)
    ensures f != g ==> f & g == 0
  {
  }

  /**
   For a named flag, the header's test `(option & flag) == flag` (all of the
   flag's bits are in the mask) agrees with the looser `(option & flag) != 0`
   (the mask shares a bit with the flag): the two readings of "the option is
   set" cannot disagree for a single-bit option.
   */
  lemma NamedFlagTest(mask: Mask, f: Mask)
    requires IsNamedFlag(f)
    ensures HasBits(mask, f) <==> mask & f != 0
  {
    if f == NoneBit {
    } else if f == DeviceBit {
    } else if f == OSBit {
    } else {
    }
  }

  /**
   Setting a named flag in a mask never changes whether another named flag is
   set, and the added flag is set afterwards.
   */
  lemma SetFlagKeepsOthers(mask: Mask, f: Mask, g: Mask)
    requires IsNamedFlag(f) && IsNamedFlag(g) && f != g
    ensures HasBits(mask | f, f)
    ensures HasBits(mask | f, g) <==> HasBits(mask, g)
  {
    if f == NoneBit {
    } else if f == DeviceBit {
    } else if f == OSBit {
    } else {
    }
  }

  /** Combining any agnostic flag into a mask sets it. */
  lemma AgnosticUnionSetsFlag(option: AgnosticOption, f: AgnosticOption)
    ensures option.Union(f).Has(f)
  {
  }

  /** Testing a named agnostic flag in a combined mask is independent of the others. */
  lemma AgnosticFlagsIndependent(option: AgnosticOption, f: AgnosticOption, g: AgnosticOption)
    requires IsNamedFlag(f.bits) && IsNamedFlag(g.bits) && f.bits != g.bits
    ensures option.Union(f).Has(g) <==> option.Has(g)
  {
    SetFlagKeepsOthers(option.bits, f.bits, g.bits);
    if f.bits == NoneBit {
    } else if f.bits == DeviceBit {
    } else if f.bits == OSBit {
    } else {
    }
  }

  /** Combining any include flag into a mask sets it. */
  lemma IncludeUnionSetsFlag(option: FileNameIncludeOption, f: FileNameIncludeOption)
    ensures option.Union(f).Has(f)
  {
  }

  /** Testing a named include flag in a combined mask is independent of the others. */
  lemma IncludeFlagsIndependent(option: FileNameIncludeOption, f: FileNameIncludeOption, g: FileNameIncludeOption)
    requires IsNamedFlag(f.bits) && IsNamedFlag(g.bits) && f.bits != g.bits
    ensures option.Union(f).Has(g) <==> option.Has(g)
  {
    SetFlagKeepsOthers(option.bits, f.bits, g.bits);
    if f.bits == NoneBit {
    } else if f.bits == DeviceBit {
    } else if f.bits == OSBit {
    } else {
    }
  }
}

/** PCI identity and the explicit locality vocabulary. */
module Localities {
  import opened Words

  type NumaNodeId = U64

  // ---------------------------------------------------------------- PCI addresses

  /** A PCI address keeps its four parts as given; device and function are whole bytes,
      so parts outside the usual 5 and 3 bits are representable. */
  datatype PciAddress = PciAddress(segment: U16, bus: U8, device: U8, func: U8) {

    /** The numeric key. Its fields are joined by bitwise or, so oversized parts overlap. */
    function Numeric(): (n: U32) {
      Pow2Values();
      OrBound(bus * 0x100, device * 8, 16);
      OrBound(Or(bus * 0x100, device * 8), func, 16);
      OrDisjoint(segment, LowHalf(), 16);
      Or(segment * 0x1_0000, LowHalf())
    }

    function LowHalf(): nat {
      Or(Or(bus * 0x100, device * 8), func)
    }

    /** The source's `operator==`: equality of the numeric keys, not of the parts. */
    predicate SameAs(other: PciAddress) {
      Numeric() == other.Numeric()
    }

    /** A signed bus and segment difference, used as a proxy when no hierarchy is known. */
    function DistanceTo(other: PciAddress): int {
      (segment - other.segment) * 1000 + (bus - other.bus)
    }

    predicate Canonical() {
      device < 32 && func < 8
    }

    static function FromBdf(segment: U16, bdf: U16): PciAddress {
      PciAddress(segment, (bdf / 0x100) % 0x100, (bdf / 8) % 0x20, bdf % 8)
    }

    /** The address a 32-bit key denotes. */
    static function FromNumeric(n: U32): PciAddress {
      FromBdf(n / 0x1_0000, n % 0x1_0000)
    }
  }

  lemma LowHalfBound(a: PciAddress)
    ensures a.LowHalf() < 0x1_0000
    ensures a.Numeric() == a.segment * 0x1_0000 + a.LowHalf()
  {
    Pow2Values();
    OrBound(a.bus * 0x100, a.device * 8, 16);
    OrBound(Or(a.bus * 0x100, a.device * 8), a.func, 16);
    OrDisjoint(a.segment, a.LowHalf(), 16);
  }

  lemma CanonicalLowHalf(a: PciAddress)
    requires a.Canonical()
    ensures a.LowHalf() == a.bus * 0x100 + a.device * 8 + a.func
  {
    Pow2Values();
    OrDisjoint(a.bus, a.device * 8, 8);
    OrDisjoint(a.bus * 32 + a.device, a.func, 3);
  }

  /** Every 32-bit key survives becoming an address and back. */
  lemma NumericOfFromNumeric(n: U32)
    ensures PciAddress.FromNumeric(n).Canonical()
    ensures PciAddress.FromNumeric(n).Numeric() == n
  {
    var a := PciAddress.FromNumeric(n);
    LowHalfBound(a);
    CanonicalLowHalf(a);
    KeyOfFields(n % 0x1_0000);
  }

  lemma KeyOfFields(bdf: U16)
    ensures bdf == ((bdf / 0x100) % 0x100) * 0x100 + ((bdf / 8) % 0x20) * 8 + bdf % 8
  {
    assert bdf / 0x100 == (bdf / 8) / 0x20;
  }

  lemma FieldsOfKey(bus: U8, device: U8, func: U8)
    requires device < 32 && func < 8
    ensures
      var low := bus * 0x100 + device * 8 + func;
      low < 0x1_0000 && (low / 0x100) % 0x100 == bus && (low / 8) % 0x20 == device && low % 8 == func
  {
    var low := bus * 0x100 + device * 8 + func;
    assert low / 8 == bus * 32 + device;
  }

  lemma KeyDenotes(segment: U16, low: U16)
    ensures PciAddress.FromNumeric(segment * 0x1_0000 + low) == PciAddress.FromBdf(segment, low)
  {
    QuotientUnique(segment * 0x1_0000 + low, 0x1_0000, segment, low);
  }

  lemma CanonicalKeyDenotes(a: PciAddress)
    requires a.Canonical()
    ensures PciAddress.FromNumeric(a.Numeric()) == a
  {
    LowHalfBound(a);
    CanonicalLowHalf(a);
    KeyDenotes(a.segment, a.LowHalf());
    FieldsOfKey(a.bus, a.device, a.func);
  }

  /** Every address survives up to `operator==`, and part by part exactly when its parts fit. */
  lemma PciIdentitySurvives(a: PciAddress)
    ensures PciAddress.FromNumeric(a.Numeric()).SameAs(a)
    ensures PciAddress.FromNumeric(a.Numeric()) == a <==> a.Canonical()
  {
    NumericOfFromNumeric(a.Numeric());
    if a.Canonical() {
      CanonicalKeyDenotes(a);
    }
  }

  /** On canonical addresses `operator==` is equality of all parts. */
  lemma CanonicalSameAsIsEquality(a: PciAddress, b: PciAddress)
    requires a.Canonical() && b.Canonical()
    ensures a.SameAs(b) <==> a == b
  {
    PciIdentitySurvives(a);
    PciIdentitySurvives(b);
  }

  // ---------------------------------------------------------------- provenance

  datatype EvidenceKind = Real | Synthetic | Unsupported

  datatype Source =
    | OperatingSystem | Pci | Numa | Cuda | Nvml | RdmaProvider | Verbs | NetAdapterApi
    | VendorSdk | DpuRuntime | Persisted | Derived | SyntheticFixture

  datatype Provenance = Provenance(kind: EvidenceKind, sources: seq<Source>)

  const NO_PROVENANCE := Provenance(EvidenceKind.Unsupported, [])

  // ---------------------------------------------------------------- localities

  datatype LocalityRelationship =
    | SameDevice | SamePcieSwitch | SameRootComplex | SameNumaNode | RemoteNuma
    | HostLocal | AcceleratorLocal | UnknownRelationship | UnsupportedRelationship

  datatype LocalityFactors = LocalityFactors(
    rootComplexSame: bool,
    pcieSwitchSame: bool,
    numaSame: bool,
    acceleratorAffine: bool,
    cpuLocal: bool,
    localMemory: bool,
    hostLocal: bool,
    acceleratorLocal: bool,
    directPciNeighbor: bool,
    cost: int
  )

  const NO_FACTORS := LocalityFactors(false, false, false, false, false, false, false, false, false, 0)

  datatype Locality = Locality(
    relationship: LocalityRelationship,
    numaNode: NumaNodeId,
    pci: PciAddress,
    provenance: Provenance,
    factors: LocalityFactors
  )

  const NO_LOCALITY :=
    Locality(UnknownRelationship, 0, PciAddress(0, 0, 0, 0), NO_PROVENANCE, NO_FACTORS)

  /** Whether a relationship is favourable enough to be investigated. */
  predicate IsLocalised(r: LocalityRelationship) {
    r in {SameDevice, SamePcieSwitch, SameRootComplex, SameNumaNode, AcceleratorLocal}
  }
}

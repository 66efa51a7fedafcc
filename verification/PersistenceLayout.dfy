/** The durable format pinned from outside: the bytes in their order, the enumerator codes, what comes
    back field by field, and what a reader refuses. */
module PersistenceLayout {
  import opened Words
  import opened Localities
  import opened Records
  import opened Ordering
  import opened Fnv
  import opened PersistenceFormat
  import opened PersistenceProofs
  import opened PersistenceStore

  // ---------------------------------------------------------------- no byte is left over

  /** Further bytes after what a reader takes stay where they are, and a failed read is an integrity error. */
  predicate Streams<T(==)>(p: Parse<T>, q: Parse<T>, more: Bytes) {
    match p
    case Parsed(v, rest) => q == Parsed(v, rest + more)
    case Bad(code) => code == IntegrityFailure
  }

  lemma FixedStreams(s: Bytes, more: Bytes, n: nat)
    ensures Streams(ReadFixed(s, n), ReadFixed(s + more, n), more)
  {
    if n <= |s| {
      assert (s + more)[..n] == s[..n] && (s + more)[n..] == s[n..] + more;
    }
  }

  lemma NumbersStream(signedChar: bool, s: Bytes, more: Bytes)
    ensures Streams(ReadU8(s), ReadU8(s + more), more)
    ensures Streams(ReadU16(signedChar, s), ReadU16(signedChar, s + more), more)
    ensures Streams(ReadU32(s), ReadU32(s + more), more)
    ensures Streams(ReadU64(s), ReadU64(s + more), more)
  {
    hide FromLittleEndian, ReadFixed;
    FixedStreams(s, more, 4);
    FixedStreams(s, more, 8);
    if s != [] {
      assert (s + more)[1..] == s[1..] + more;
    }
    if |s| >= 2 {
      assert (s + more)[2..] == s[2..] + more;
    }
  }

  lemma AllNumbersStream(signedChar: bool)
    ensures forall s, more {:trigger ReadU8(s + more)} :: Streams(ReadU8(s), ReadU8(s + more), more)
    ensures forall s, more {:trigger ReadU16(signedChar, s + more)} :: Streams(ReadU16(signedChar, s), ReadU16(signedChar, s + more), more)
    ensures forall s, more {:trigger ReadU32(s + more)} :: Streams(ReadU32(s), ReadU32(s + more), more)
    ensures forall s, more {:trigger ReadU64(s + more)} :: Streams(ReadU64(s), ReadU64(s + more), more)
  {
    hide ReadU8, ReadU16, ReadU32, ReadU64, Streams;
    forall s: Bytes, more: Bytes
      ensures Streams(ReadU8(s), ReadU8(s + more), more)
      ensures Streams(ReadU16(signedChar, s), ReadU16(signedChar, s + more), more)
      ensures Streams(ReadU32(s), ReadU32(s + more), more)
      ensures Streams(ReadU64(s), ReadU64(s + more), more)
    {
      NumbersStream(signedChar, s, more);
    }
  }

  lemma StringStreams(signedChar: bool, s: Bytes, more: Bytes)
    ensures Streams(ReadString(signedChar, s), ReadString(signedChar, s + more), more)
  {
    hide ReadU16;
    NumbersStream(signedChar, s, more);
    var n := ReadU16(signedChar, s);
    if n.Parsed? && n.value <= |n.rest| {
      assert (n.rest + more)[..n.value] == n.rest[..n.value] && (n.rest + more)[n.value..] == n.rest[n.value..] + more;
    }
  }

  lemma CodesStream(s: Bytes, more: Bytes)
    ensures Streams(ReadKind(s), ReadKind(s + more), more)
    ensures Streams(ReadSource(s), ReadSource(s + more), more)
    ensures Streams(ReadOwnership(s), ReadOwnership(s + more), more)
    ensures Streams(ReadResidencyState(s), ReadResidencyState(s + more), more)
    ensures Streams(ReadLifecycle(s), ReadLifecycle(s + more), more)
  {
    hide ReadU8, EvidenceKindOf, SourceOf, OwnershipOf, ResidencyStateOf, LifecycleOf;
    AllNumbersStream(false);
  }

  lemma {:induction false} SourcesStream(n: nat, acc: seq<Source>, s: Bytes, more: Bytes)
    ensures Streams(ReadSources(n, acc, s), ReadSources(n, acc, s + more), more)
    decreases n
  {
    hide ReadSource;
    if n > 0 {
      CodesStream(s, more);
      var v := ReadSource(s);
      if v.Parsed? {
        SourcesStream(n - 1, acc + [v.value], v.rest, more);
      }
    }
  }

  /** The part of a provenance after its kind. */
  function ReadCountedSources(s: Bytes): Parse<seq<Source>> {
    var (n, s) :- ReadU32(s);
    if n > MAX_SOURCES then Bad(IntegrityFailure) else ReadSources(n, [], s)
  }

  lemma CountedSourcesStream(s: Bytes, more: Bytes)
    ensures Streams(ReadCountedSources(s), ReadCountedSources(s + more), more)
  {
    hide ReadU32, ReadSources;
    NumbersStream(false, s, more);
    var n := ReadU32(s);
    if n.Parsed? {
      SourcesStream(n.value, [], n.rest, more);
    }
  }

  lemma ProvenanceInParts(s: Bytes)
    ensures ReadProvenance(s) ==
            match ReadKind(s)
            case Bad(code) => Bad(code)
            case Parsed(kind, rest) =>
              match ReadCountedSources(rest)
              case Bad(code) => Bad(code)
              case Parsed(sources, rest) => Parsed(Provenance(kind, sources), rest)
  {
    hide ReadKind, ReadU32, ReadSources;
  }

  lemma ProvenanceStreams(s: Bytes, more: Bytes)
    ensures Streams(ReadProvenance(s), ReadProvenance(s + more), more)
  {
    hide ReadKind, ReadCountedSources, ReadProvenance;
    ProvenanceInParts(s);
    ProvenanceInParts(s + more);
    CodesStream(s, more);
    if ReadKind(s).Parsed? {
      CountedSourcesStream(ReadKind(s).rest, more);
    }
  }

  lemma CapabilityStreams(s: Bytes, more: Bytes)
    ensures Streams(ReadCapability(s), ReadCapability(s + more), more)
  {
    hide ReadU64, ReadU32, ReadProvenance, FlagBit;
    AllNumbersStream(false);
    var generation := ReadU64(s);
    if generation.Parsed? {
      var w := ReadU32(generation.rest);
      if w.Parsed? {
        ProvenanceStreams(w.rest, more);
      }
    }
  }

  lemma PartsStream(signedChar: bool, s: Bytes, more: Bytes)
    ensures Streams(ReadPci(signedChar, s), ReadPci(signedChar, s + more), more)
    ensures Streams(ReadDeviceClass(s), ReadDeviceClass(s + more), more)
    ensures Streams(ReadRefs(s), ReadRefs(s + more), more)
    ensures Streams(ReadPolicy(s), ReadPolicy(s + more), more)
  {
    PciAndClassStream(signedChar, s, more);
    hide ReadU8, ReadU16, ReadU32, ReadU64, ReadPci, ReadDeviceClass, FlagBit;
    AllNumbersStream(signedChar);
  }

  lemma PciAndClassStream(signedChar: bool, s: Bytes, more: Bytes)
    ensures Streams(ReadPci(signedChar, s), ReadPci(signedChar, s + more), more)
    ensures Streams(ReadDeviceClass(s), ReadDeviceClass(s + more), more)
  {
    hide ReadU8, ReadU16, DeviceKindOf, FunctionClassOf;
    AllNumbersStream(signedChar);
  }

  lemma AllPartsStream(signedChar: bool)
    ensures forall s, more {:trigger ReadString(signedChar, s + more)} :: Streams(ReadString(signedChar, s), ReadString(signedChar, s + more), more)
    ensures forall s, more {:trigger ReadPci(signedChar, s + more)} :: Streams(ReadPci(signedChar, s), ReadPci(signedChar, s + more), more)
    ensures forall s, more {:trigger ReadDeviceClass(s + more)} :: Streams(ReadDeviceClass(s), ReadDeviceClass(s + more), more)
    ensures forall s, more {:trigger ReadRefs(s + more)} :: Streams(ReadRefs(s), ReadRefs(s + more), more)
    ensures forall s, more {:trigger ReadProvenance(s + more)} :: Streams(ReadProvenance(s), ReadProvenance(s + more), more)
    ensures forall s, more {:trigger ReadCapability(s + more)} :: Streams(ReadCapability(s), ReadCapability(s + more), more)
    ensures forall s, more {:trigger ReadOwnership(s + more)} :: Streams(ReadOwnership(s), ReadOwnership(s + more), more)
    ensures forall s, more {:trigger ReadResidencyState(s + more)} :: Streams(ReadResidencyState(s), ReadResidencyState(s + more), more)
    ensures forall s, more {:trigger ReadLifecycle(s + more)} :: Streams(ReadLifecycle(s), ReadLifecycle(s + more), more)
  {
    hide Streams, ReadString, ReadPci, ReadDeviceClass, ReadRefs, ReadProvenance, ReadCapability, ReadOwnership, ReadResidencyState, ReadLifecycle;
    forall s: Bytes, more: Bytes
      ensures Streams(ReadString(signedChar, s), ReadString(signedChar, s + more), more)
      ensures Streams(ReadPci(signedChar, s), ReadPci(signedChar, s + more), more)
      ensures Streams(ReadDeviceClass(s), ReadDeviceClass(s + more), more)
      ensures Streams(ReadRefs(s), ReadRefs(s + more), more)
      ensures Streams(ReadProvenance(s), ReadProvenance(s + more), more)
      ensures Streams(ReadCapability(s), ReadCapability(s + more), more)
      ensures Streams(ReadOwnership(s), ReadOwnership(s + more), more)
      ensures Streams(ReadResidencyState(s), ReadResidencyState(s + more), more)
      ensures Streams(ReadLifecycle(s), ReadLifecycle(s + more), more)
    {
      StringStreams(signedChar, s, more);
      PartsStream(signedChar, s, more);
      ProvenanceStreams(s, more);
      CapabilityStreams(s, more);
      CodesStream(s, more);
    }
  }

  lemma NicHeadStreams(signedChar: bool, s: Bytes, more: Bytes)
    ensures Streams(ReadNicHead(signedChar, s), ReadNicHead(signedChar, s + more), more)
  {
    hide ReadU8, ReadU16, ReadU64, ReadString, ReadPci, ReadDeviceClass;
    AllNumbersStream(signedChar);
    AllPartsStream(signedChar);
  }

  lemma NicStreams(signedChar: bool, s: Bytes, more: Bytes)
    ensures Streams(ReadNic(signedChar, s), ReadNic(signedChar, s + more), more)
  {
    hide ReadNicHead, ReadU64, ReadCapability, ReadProvenance;
    NicHeadStreams(signedChar, s, more);
    AllNumbersStream(signedChar);
    AllPartsStream(signedChar);
  }

  lemma GpuStreams(signedChar: bool, s: Bytes, more: Bytes)
    ensures Streams(ReadGpu(signedChar, s), ReadGpu(signedChar, s + more), more)
  {
    hide ReadU8, ReadU64, ReadString, ReadPci, ReadProvenance;
    AllNumbersStream(signedChar);
    AllPartsStream(signedChar);
  }

  lemma HistoryStreams(signedChar: bool, s: Bytes, more: Bytes)
    ensures Streams(ReadHistory(signedChar, s), ReadHistory(signedChar, s + more), more)
  {
    hide ReadRefs, ReadU64, ReadString, ReadResidencyState, ReadOwnership, ReadLifecycle;
    AllNumbersStream(signedChar);
    AllPartsStream(signedChar);
  }

  ghost predicate CodecStreams<T(!new)>(c: Codec<T>) {
    forall s, more {:trigger c.read(s + more)} :: Streams(c.read(s), c.read(s + more), more)
  }

  lemma CodecsStream(signedChar: bool)
    ensures CodecStreams(NicCodec(signedChar)) && CodecStreams(GpuCodec(signedChar)) && CodecStreams(HistoryCodec(signedChar))
  {
    hide ReadNic, ReadGpu, ReadHistory, Streams;
    forall s: Bytes, more: Bytes
      ensures Streams(ReadNic(signedChar, s), ReadNic(signedChar, s + more), more)
      ensures Streams(ReadGpu(signedChar, s), ReadGpu(signedChar, s + more), more)
      ensures Streams(ReadHistory(signedChar, s), ReadHistory(signedChar, s + more), more)
    {
      NicStreams(signedChar, s, more);
      GpuStreams(signedChar, s, more);
      HistoryStreams(signedChar, s, more);
    }
  }

  lemma {:induction false} ListStreams<T(!new)>(c: Codec<T>, n: nat, acc: seq<T>, s: Bytes, more: Bytes)
    requires CodecStreams(c)
    ensures Streams(ReadList(c, n, acc, s), ReadList(c, n, acc, s + more), more)
    decreases n
  {
    hide Refused;
    if n > 0 {
      var x := c.read(s);
      assert Streams(x, c.read(s + more), more);
      if x.Parsed? {
        ListStreams(c, n - 1, acc + [x.value], x.rest, more);
      }
    }
  }

  lemma SectionStreams<T(!new)>(c: Codec<T>, limit: nat, s: Bytes, more: Bytes)
    requires CodecStreams(c)
    ensures Streams(ReadSection(c, limit, s), ReadSection(c, limit, s + more), more)
  {
    hide ReadU32, ReadList, CodecStreams;
    NumbersStream(false, s, more);
    var n := ReadU32(s);
    if n.Parsed? {
      ListStreams(c, n.value, [], n.rest, more);
    }
  }

  lemma BodyStreams(signedChar: bool, version: U32, s: Bytes, more: Bytes)
    ensures Streams(ReadBody(signedChar, version, s), ReadBody(signedChar, version, s + more), more)
  {
    hide ReadU64, ReadPolicy, ReadSection, NicCodec, GpuCodec, HistoryCodec, CodecStreams;
    CodecsStream(signedChar);
    NumbersStream(signedChar, s, more);
    var epoch := ReadU64(s);
    if epoch.Parsed? {
      PartsStream(signedChar, epoch.rest, more);
      var policy := ReadPolicy(epoch.rest);
      if policy.Parsed? {
        SectionStreams(NicCodec(signedChar), MAX_SAVED_NICS, policy.rest, more);
        var nics := ReadSection(NicCodec(signedChar), MAX_SAVED_NICS, policy.rest);
        if nics.Parsed? {
          SectionStreams(GpuCodec(signedChar), MAX_SAVED_GPUS, nics.rest, more);
          var gpus := ReadSection(GpuCodec(signedChar), MAX_SAVED_GPUS, nics.rest);
          if gpus.Parsed? {
            SectionStreams(HistoryCodec(signedChar), MAX_SAVED_HISTORY, gpus.rest, more);
          }
        }
      }
    }
  }

  /** No proper extension of an accepted payload is accepted: every byte counts, to the last. */
  lemma NoExtensionIsAccepted(signedChar: bool, s: Bytes, more: Bytes)
    requires more != []
    ensures Decode(signedChar, s).Ok? ==> Decode(signedChar, s + more) == Err(IntegrityFailure)
  {
    hide ReadU32, ReadBody;
    NumbersStream(signedChar, s, more);
    var version := ReadU32(s);
    if version.Parsed? {
      BodyStreams(signedChar, version.value, version.rest, more);
    }
  }

  /** Nor is a file around an accepted payload with anything after it, checksum right or not. */
  lemma TrailingBytesAreRefused(signedChar: bool, s: Bytes, more: Bytes)
    requires more != []
    ensures LoadFile(signedChar, FileOf(s)).Ok? ==> LoadFile(signedChar, FileOf(s + more)) == Err(IntegrityFailure)
  {
    hide Decode, FileOf, PayloadOf;
    IntactFilesAreSavedFiles(FileOf(s), s);
    IntactFilesAreSavedFiles(FileOf(s + more), s + more);
    NoExtensionIsAccepted(signedChar, s, more);
  }

  /** A refused payload is of a future version if its first four bytes say more than 1, and otherwise
      damaged. */
  lemma RefusalsAreNamed(signedChar: bool, s: Bytes)
    ensures Decode(signedChar, s).Err? ==>
              Decode(signedChar, s).code ==
              if |s| >= 4 && WordOf(s[..4]) > 1 then ErrorCode.Unsupported else IntegrityFailure
  {
    hide ReadBody;
    NumbersStream(signedChar, s, []);
    if |s| >= 4 {
      FirstWord(s);
      BodyStreams(signedChar, ReadU32(s).value, ReadU32(s).rest, []);
    }
  }

  lemma FirstWord(s: Bytes)
    requires |s| >= 4
    ensures ReadU32(s) == Parsed(WordOf(s[..4]), s[4..])
  {
    WordOfIs(s[..4]);
  }

  // ---------------------------------------------------------------- enumerator codes

  /** The enumerator at a position, if there is one. */
  function Nth<T>(all: seq<T>, c: U8): Option<T> {
    if c < |all| then Some(all[c]) else None
  }

  /** Codes are the positions of the enumerators in their declarations, and no other byte is one. */
  lemma CodesArePositions(c: U8)
    ensures EvidenceKindOf(c) == Nth([EvidenceKind.Real, Synthetic, EvidenceKind.Unsupported], c)
    ensures SourceOf(c) == Nth([OperatingSystem, Pci, Numa, Cuda, Nvml, RdmaProvider, Verbs, NetAdapterApi, VendorSdk, DpuRuntime,
                                Persisted, Derived, SyntheticFixture], c)
    ensures DeviceKindOf(c) == Nth([Nic, SmartNic, Dpu, UnknownDevice, UnsupportedDevice], c)
    ensures FunctionClassOf(c) == Nth([PhysicalFunction, VirtualFunction, Subfunction, Representor, UnknownFunction], c)
    ensures OwnershipOf(c) == Nth([Unassigned, Assigned, Contested, Revoked, UnknownOwnership], c)
    ensures ResidencyStateOf(c) ==
            Nth([AbsentResidency, DiscoveredResidency, AvailableResidency, ResidentResidency, AttachedResidency, DetachedResidency,
                 DrainingResidency, RevalidationResidency, StaleResidencyState, FailedResidency, UnsupportedResidency, RetiredResidency], c)
    ensures LifecycleOf(c) == Nth([Discovered, Available, ReservedForAttachment, Attached, Resident, Draining, Detached,
                                   RevalidationRequired, Failed, Retired], c)
  {
  }

  // ---------------------------------------------------------------- the bytes in their order

  function Short(v: U16): Bytes {
    [v % 0x100, v / 0x100]
  }

  function Word(v: U32): Bytes {
    LittleEndian(v, 4)
  }

  function Long(v: U64): Bytes {
    LittleEndian(v, 8)
  }

  /** The bytes of one NIC, field by field. */
  lemma NicLayout(n: NicRecord, rest: Bytes)
    ensures PutNic(n, rest) ==
              Long(n.id) + (Long(n.generation)
              + (Short(|n.osName| % 0x1_0000) + (n.osName + (Short(|n.osDescription| % 0x1_0000) + (n.osDescription
              + (Short(n.pci.segment) + ([n.pci.bus] + ([n.pci.device] + ([n.pci.func]
              + (Short(n.vendorId) + (Short(n.deviceId) + (Short(n.subsystemVendorId) + (Short(n.subsystemId) + ([n.revision]
              + ([DeviceKindCode(n.deviceKind)] + ([FunctionClassCode(n.functionClass)]
              + PutCapability(n.capability, Long(n.numaNode) + PutProvenance(n.provenance, rest))))))))))))))))))
  {
    hide LittleEndian, PutCapability, PutProvenance, DeviceKindCode, FunctionClassCode;
  }

  /** The bytes of one accelerator. */
  lemma GpuLayout(g: GpuRecord, rest: Bytes)
    ensures PutGpu(g, rest) ==
              Long(g.id) + (Long(g.generation) + (Short(|g.name| % 0x1_0000) + (g.name
              + (Short(g.pci.segment) + ([g.pci.bus] + ([g.pci.device] + ([g.pci.func]
              + (Long(g.cudaDevice) + ([if g.cudaVerified then 1 else 0] + (Long(g.numaNode) + PutProvenance(g.provenance, rest)))))))))))
  {
    hide LittleEndian, PutProvenance;
  }

  /** The bytes of one history entry. */
  lemma HistoryLayout(r: ResidencyRecord, rest: Bytes)
    ensures PutHistory(r, rest) ==
              Long(r.id) + (Long(r.generation) + (Long(r.nic) + (Long(r.func) + (Long(r.port) + (Long(r.queue)
              + (Long(r.targetGpu) + (Long(r.targetNuma) + (Long(r.targetEndpoint)
              + ([ResidencyStateCode(r.state)] + (Long(r.topologyGeneration)
              + ([OwnershipCode(r.ownership)] + (Long(r.ownerWorker) + (Long(r.ownerBoot) + (Long(r.epoch)
              + ([LifecycleCode(r.lifecycle)] + (Short(|r.explanation| % 0x1_0000) + (r.explanation + rest)))))))))))))))))
  {
    hide LittleEndian, ResidencyStateCode, OwnershipCode, LifecycleCode;
  }

  /** The bytes of a capability and of a provenance. */
  lemma CapabilityLayout(c: CapabilitySet, rest: Bytes)
    ensures PutCapability(c, rest) == Long(c.generation) + (Word(CapabilityWord(c)) + PutProvenance(c.provenance, rest))
    ensures CapabilityWord(c) == (if c.rdma then 1 else 0) + (if c.sriov then 2 else 0) + (if c.offload then 4 else 0)
                                 + (if c.localMemory then 8 else 0) + (if c.acceleratorAffinity then 16 else 0)
    ensures PutProvenance(c.provenance, rest) ==
            [EvidenceKindCode(c.provenance.kind)] + (Word(|c.provenance.sources| % TWO_32) + PutSources(c.provenance.sources, rest))
  {
    hide LittleEndian, CapabilityWord, PutSources, EvidenceKindCode;
    CapabilityWordIs(c);
  }

  /** The bytes of a whole payload. */
  lemma PayloadLayout(st: PersistentState)
    ensures Encode(st) ==
              Word(st.formatVersion) + (Long(st.epoch) + (Word(PolicyWord(st.policy)) + (Long(st.policy.freshnessLimit)
              + (Word(|st.nics| % TWO_32) + PutList(NicCodec(false), st.nics,
                 Word(|st.gpus| % TWO_32) + PutList(GpuCodec(false), st.gpus,
                 Word(|st.history| % TWO_32) + PutList(HistoryCodec(false), st.history, [])))))))
  {
    hide LittleEndian, PolicyWord, PutList, NicCodec, GpuCodec, HistoryCodec;
  }

  /** Sources stand in their order, one code each. */
  lemma {:induction false} SourcesLayout(sources: seq<Source>, rest: Bytes)
    ensures PutSources(sources, rest) == seq(|sources|, i requires 0 <= i < |sources| => SourceCode(sources[i])) + rest
    decreases |sources|
  {
    hide SourceCode;
    if sources != [] {
      SourcesLayout(sources[1..], rest);
      var codes := seq(|sources|, i requires 0 <= i < |sources| => SourceCode(sources[i]));
      assert codes == [SourceCode(sources[0])] + seq(|sources| - 1, i requires 0 <= i < |sources| - 1 => SourceCode(sources[1..][i]));
    }
  }

  /** So do records. */
  lemma {:induction false} ListLayout<T>(c: Codec<T>, xs: seq<T>, ys: seq<T>, x: T, rest: Bytes)
    ensures PutList(c, xs + ys, rest) == PutList(c, xs, PutList(c, ys, rest))
    ensures PutList(c, [x], rest) == c.put(x, rest) && PutList(c, [], rest) == rest
    decreases |xs|
  {
    assert [x][1..] == [];
    if xs == [] {
      assert xs + ys == ys;
    } else {
      assert (xs + ys)[1..] == xs[1..] + ys;
      ListLayout(c, xs[1..], ys, x, rest);
    }
  }

  /** Flag words are read bit by bit, whatever the unused bits hold, and any non-zero byte verifies. */
  lemma FlagsRead(w: U32, limit: U64, generation: Generation, v: Provenance, rest: Bytes)
    requires |v.sources| <= 64
    ensures ReadPolicy(PutU32(w, PutU64(limit, rest))) ==
            Parsed(PersistedPolicy(w % 2 == 1, w / 2 % 2 == 1, w / 4 % 2 == 1, w / 8 % 2 == 1, w / 16 % 2 == 1, w / 32 % 2 == 1,
                                   w / 64 % 2 == 1, w / 128 % 2 == 1, w / 256 % 2 == 1, w / 512 % 2 == 1, limit), rest)
    ensures ReadCapability(PutU64(generation, PutU32(w, PutProvenance(v, rest)))) ==
            Parsed(CapabilitySet(generation, w % 2 == 1, w / 2 % 2 == 1, w / 4 % 2 == 1, w / 8 % 2 == 1, w / 16 % 2 == 1, v), rest)
  {
    BitsOfWord(w);
    hide ReadU32, ReadU64, ReadProvenance, PutU32, PutU64, PutProvenance, FlagBit;
  }

  lemma BitsOfWord(w: U32)
    ensures FlagBit(w, 0) == (w % 2 == 1) && FlagBit(w, 1) == (w / 2 % 2 == 1) && FlagBit(w, 2) == (w / 4 % 2 == 1)
    ensures FlagBit(w, 3) == (w / 8 % 2 == 1) && FlagBit(w, 4) == (w / 16 % 2 == 1) && FlagBit(w, 5) == (w / 32 % 2 == 1)
    ensures FlagBit(w, 6) == (w / 64 % 2 == 1) && FlagBit(w, 7) == (w / 128 % 2 == 1) && FlagBit(w, 8) == (w / 256 % 2 == 1)
    ensures FlagBit(w, 9) == (w / 512 % 2 == 1)
  {
    assert Pow2(0) == 1 && Pow2(1) == 2 && Pow2(2) == 4 && Pow2(3) == 8 && Pow2(4) == 16;
    assert Pow2(5) == 32 && Pow2(6) == 64 && Pow2(7) == 128 && Pow2(8) == 256 && Pow2(9) == 512;
  }

  lemma AnyNonZeroByteVerifies(g: GpuRecord, b: U8, rest: Bytes)
    requires |g.name| <= 0xFFFF && |g.provenance.sources| <= 64
    ensures
      var p := ReadGpu(false, PutU64(g.id, PutU64(g.generation, PutString(g.name, PutPci(g.pci,
                              PutU64(g.cudaDevice, PutU8(b, PutU64(g.numaNode, PutProvenance(g.provenance, rest)))))))));
      p.Parsed? && (p.value.cudaVerified <==> b != 0)
  {
    hide ReadU8, ReadU64, ReadString, ReadPci, ReadProvenance, PutU8, PutU64, PutString, PutPci, PutProvenance;
    assert StringSurvives(false, g.name);
  }

  /** The magic spells the name of the format. */
  lemma MagicSpells()
    ensures |MAGIC| == 19 && forall i | 0 <= i < 19 :: MAGIC[i] == "NICRESIDENCYPERSIST"[i] as int
  {
  }

  // ---------------------------------------------------------------- what comes back

  /** Which 16-bit values a reader returns as they were written. */
  predicate Returns(signedChar: bool, v: nat) {
    !signedChar || v % 0x100 < 0x80 || v / 0x100 == 0xFF
  }

  predicate TextReturns(signedChar: bool, v: Bytes) {
    |v| <= 0xFFFF && Returns(signedChar, |v|)
  }

  predicate NicReturns(signedChar: bool, n: NicRecord) {
    && TextReturns(signedChar, n.osName) && TextReturns(signedChar, n.osDescription) && Returns(signedChar, n.pci.segment)
    && Returns(signedChar, n.vendorId) && Returns(signedChar, n.deviceId)
    && Returns(signedChar, n.subsystemVendorId) && Returns(signedChar, n.subsystemId)
    && |n.capability.provenance.sources| <= 64 && |n.provenance.sources| <= 64
  }

  predicate GpuReturns(signedChar: bool, g: GpuRecord) {
    TextReturns(signedChar, g.name) && Returns(signedChar, g.pci.segment) && |g.provenance.sources| <= 64
  }

  lemma ReturnsIsSurvives(signedChar: bool)
    ensures forall v: U16 :: Survives(signedChar, v) <==> Returns(signedChar, v)
  {
    forall v: U16
      ensures Survives(signedChar, v) <==> Returns(signedChar, v)
    {
      SurvivesExactly(signedChar, v);
    }
  }

  /** Which states come back whole, in plain terms. */
  lemma RecoverableMeans(signedChar: bool, st: PersistentState)
    ensures Recoverable(signedChar, st) <==>
            && st.formatVersion <= 1
            && (forall i | 0 <= i < |st.nics| :: NicReturns(signedChar, st.nics[i]) && st.nics[i].id != 0)
            && (forall i, j | 0 <= i < j < |st.nics| :: st.nics[i].id != st.nics[j].id)
            && (forall i | 0 <= i < |st.gpus| :: GpuReturns(signedChar, st.gpus[i]) && st.gpus[i].id != 0)
            && (forall i, j | 0 <= i < j < |st.gpus| :: st.gpus[i].id != st.gpus[j].id)
            && (forall i | 0 <= i < |st.history| :: TextReturns(signedChar, st.history[i].explanation))
  {
    NicsReturn(signedChar, st.nics);
    GpusReturn(signedChar, st.gpus);
    HistoryReturns(signedChar, st.history);
    hide Loadable, NicReturns, GpuReturns, TextReturns;
  }

  lemma NicsReturn(signedChar: bool, nics: seq<NicRecord>)
    ensures Loadable(NicCodec(signedChar), (n: NicRecord) => NicSurvives(signedChar, n), nics) <==>
            && (forall i | 0 <= i < |nics| :: NicReturns(signedChar, nics[i]) && nics[i].id != 0)
            && (forall i, j | 0 <= i < j < |nics| :: nics[i].id != nics[j].id)
  {
    ReturnsIsSurvives(signedChar);
    hide Survives, Returns, ReadNic, PutNic;
    assert forall n: NicRecord :: NicSurvives(signedChar, n) <==> NicReturns(signedChar, n);
    hide NicSurvives, NicReturns;
  }

  lemma GpusReturn(signedChar: bool, gpus: seq<GpuRecord>)
    ensures Loadable(GpuCodec(signedChar), (g: GpuRecord) => GpuSurvives(signedChar, g), gpus) <==>
            && (forall i | 0 <= i < |gpus| :: GpuReturns(signedChar, gpus[i]) && gpus[i].id != 0)
            && (forall i, j | 0 <= i < j < |gpus| :: gpus[i].id != gpus[j].id)
  {
    ReturnsIsSurvives(signedChar);
    hide Survives, Returns, ReadGpu, PutGpu;
    assert forall g: GpuRecord :: GpuSurvives(signedChar, g) <==> GpuReturns(signedChar, g);
    hide GpuSurvives, GpuReturns;
  }

  lemma HistoryReturns(signedChar: bool, history: seq<ResidencyRecord>)
    ensures Loadable(HistoryCodec(signedChar), (h: ResidencyRecord) => HistorySurvives(signedChar, h), history) <==>
            forall i | 0 <= i < |history| :: TextReturns(signedChar, history[i].explanation)
  {
    ReturnsIsSurvives(signedChar);
    hide Survives, Returns, ReadHistory, PutHistory;
  }

  /** Which states a save accepts, in plain terms. */
  lemma StorableMeans(st: PersistentState)
    ensures Storable(st) <==>
            && |st.nics| <= 4096 && |st.gpus| <= 1024 && |st.history| <= 8192
            && (forall i | 0 <= i < |st.nics| :: |st.nics[i].osName| <= 0xFFFF && |st.nics[i].osDescription| <= 0xFFFF)
            && (forall i | 0 <= i < |st.gpus| :: |st.gpus[i].name| <= 0xFFFF)
            && (forall i | 0 <= i < |st.history| :: |st.history[i].explanation| <= 0xFFFF)
  {
  }

  /** Field by field, what a load of a saved recoverable state holds. */
  lemma WhatComesBack(signedChar: bool, ordered: PersistentState, loaded: PersistentState)
    requires |ordered.nics| <= 4096 && |ordered.gpus| <= 1024 && |ordered.history| <= 8192 && Recoverable(signedChar, ordered)
    ensures LoadFile(signedChar, FileOf(Encode(ordered))) == Ok(loaded) <==>
            && loaded.formatVersion == ordered.formatVersion && loaded.epoch == ordered.epoch && loaded.policy == ordered.policy
            && |loaded.nics| == |ordered.nics| && |loaded.gpus| == |ordered.gpus| && |loaded.history| == |ordered.history|
            && (forall i | 0 <= i < |ordered.nics| ::
                  loaded.nics[i] == ordered.nics[i].(linkState := LinkUnknown, health := HealthUnknown,
                                                     lifecycle := RevalidationRequired, freshness := 0))
            && (forall i | 0 <= i < |ordered.gpus| :: loaded.gpus[i] == ordered.gpus[i].(freshness := 0))
            && (forall i | 0 <= i < |ordered.history| ::
                  loaded.history[i] == ordered.history[i].(attachmentGeneration := 0, capabilityGeneration := 0, locality := NO_LOCALITY,
                                                           policy := 0, provenance := NO_PROVENANCE, freshness := 0))
  {
    DecodeInvertsEncodeExactly(signedChar, ordered);
    IntactFilesAreSavedFiles(FileOf(Encode(ordered)), Encode(ordered));
    CanonicalMeans(ordered, loaded);
    hide Recoverable, Encode, Decode, FileOf, PayloadOf, Canonical;
  }

  lemma CanonicalMeans(ordered: PersistentState, loaded: PersistentState)
    ensures loaded == Canonical(ordered) <==>
            && loaded.formatVersion == ordered.formatVersion && loaded.epoch == ordered.epoch && loaded.policy == ordered.policy
            && |loaded.nics| == |ordered.nics| && |loaded.gpus| == |ordered.gpus| && |loaded.history| == |ordered.history|
            && (forall i | 0 <= i < |ordered.nics| ::
                  loaded.nics[i] == ordered.nics[i].(linkState := LinkUnknown, health := HealthUnknown,
                                                     lifecycle := RevalidationRequired, freshness := 0))
            && (forall i | 0 <= i < |ordered.gpus| :: loaded.gpus[i] == ordered.gpus[i].(freshness := 0))
            && (forall i | 0 <= i < |ordered.history| ::
                  loaded.history[i] == ordered.history[i].(attachmentGeneration := 0, capabilityGeneration := 0, locality := NO_LOCALITY,
                                                           policy := 0, provenance := NO_PROVENANCE, freshness := 0))
  {
    var c := Canonical(ordered);
    assert loaded.nics == c.nics <==> |loaded.nics| == |c.nics| && forall i | 0 <= i < |c.nics| :: loaded.nics[i] == c.nics[i];
    assert loaded.gpus == c.gpus <==> |loaded.gpus| == |c.gpus| && forall i | 0 <= i < |c.gpus| :: loaded.gpus[i] == c.gpus[i];
    assert loaded.history == c.history <==> |loaded.history| == |c.history| && forall i | 0 <= i < |c.history| :: loaded.history[i] == c.history[i];
  }
}

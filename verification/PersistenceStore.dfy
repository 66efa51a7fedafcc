/** The writer, the reader and the store, as loops over a growing buffer and a moving cursor. */
module PersistenceStore {
  import opened Words
  import opened Localities
  import opened Records
  import opened Ordering
  import opened Fnv
  import opened PersistenceFormat
  import opened PersistenceProofs

  // ---------------------------------------------------------------- the writer

  /** Appends to a buffer. Contracts say what the buffer followed by any further bytes has become. */
  class Writer {
    var buf: Bytes

    constructor ()
      ensures buf == []
    {
      buf := [];
    }

    method U8(v: U8)
      modifies this
      ensures forall rest :: buf + rest == old(buf) + PutU8(v, rest)
    {
      buf := buf + [v];
      assert forall rest :: buf + rest == old(buf) + ([v] + rest);
    }

    method U16(v: U16)
      modifies this
      ensures forall rest :: buf + rest == old(buf) + PutU16(v, rest)
    {
      U8(v % 0x100);
      U8(v / 0x100);
      assert forall rest :: PutU8(v % 0x100, PutU8(v / 0x100, rest)) == PutU16(v, rest);
    }

    method U32(v: U32)
      modifies this
      ensures forall rest :: buf + rest == old(buf) + PutU32(v, rest)
    {
      buf := AppendLittleEndian(buf, v, 4);
      assert forall rest :: buf + rest == old(buf) + (LittleEndian(v, 4) + rest);
    }

    method U64(v: U64)
      modifies this
      ensures forall rest :: buf + rest == old(buf) + PutU64(v, rest)
    {
      buf := AppendLittleEndian(buf, v, 8);
      assert forall rest :: buf + rest == old(buf) + (LittleEndian(v, 8) + rest);
    }

    /** Strings over 0xFFFF bytes are refused. */
    method String(v: Bytes) returns (r: Outcome<()>)
      modifies this
      ensures r == if |v| > MAX_STRING then Err(ResourceLimit) else Ok(())
      ensures r.Ok? ==> forall rest :: buf + rest == old(buf) + PutString(v, rest)
    {
      if |v| > MAX_STRING {
        return Err(ResourceLimit);
      }
      U16(|v|);
      label lengthWritten:
      buf := buf + v;
      assert forall rest :: buf + rest == old@lengthWritten(buf) + (v + rest);
      return Ok(());
    }
  }

  method WriteProvenance(w: Writer, p: Provenance)
    modifies w
    ensures forall rest :: w.buf + rest == old(w.buf) + PutProvenance(p, rest)
  {
    hide PutU8, PutU32;
    w.U8(EvidenceKindCode(p.kind));
    w.U32(|p.sources| % TWO_32);
    label counted:
    for i := 0 to |p.sources|
      invariant forall rest :: w.buf + PutSources(p.sources[i..], rest) == old@counted(w.buf) + PutSources(p.sources, rest)
    {
      assert p.sources[i..][1..] == p.sources[i + 1..];
      w.U8(SourceCode(p.sources[i]));
    }
    assert forall rest :: PutSources([], rest) == rest;
  }

  function Weight(c: bool, w: nat): nat {
    if c then w else 0
  }

  lemma FlagWordStep(f: seq<bool>, i: nat)
    requires i < |f|
    ensures FlagWord(f[i..]) == Weight(f[i], 1) + 2 * FlagWord(f[i + 1..])
  {
    assert f[i..][1..] == f[i + 1..];
  }

  lemma FlagWordEnds(f: seq<bool>)
    ensures f[0..] == f && FlagWord(f[|f|..]) == 0
  {
  }

  lemma CapabilityWordIs(c: CapabilitySet)
    ensures CapabilityWord(c) == Weight(c.rdma, 1) + Weight(c.sriov, 2) + Weight(c.offload, 4) + Weight(c.localMemory, 8) + Weight(c.acceleratorAffinity, 16)
  {
    hide FlagWord;
    var f := CapabilityFlags(c);
    FlagWordEnds(f);
    FiveFlags(f, 0);
  }

  /** Each flag has a bit of its own, so adding its weight is or-ing it in. */
  method CapabilityFlagWord(c: CapabilitySet) returns (flags: U32)
    ensures flags == CapabilityWord(c)
  {
    hide CapabilityWord;
    CapabilityWordIs(c);
    var word: int := 0;
    if c.rdma { word := word + 1; }
    if c.sriov { word := word + 2; }
    if c.offload { word := word + 4; }
    if c.localMemory { word := word + 8; }
    if c.acceleratorAffinity { word := word + 16; }
    flags := word;
  }

  method WriteCapability(w: Writer, c: CapabilitySet)
    modifies w
    ensures forall rest :: w.buf + rest == old(w.buf) + PutCapability(c, rest)
  {
    hide PutU64, PutU32, PutProvenance, CapabilityWord;
    w.U64(c.generation);
    var flags := CapabilityFlagWord(c);
    w.U32(flags);
    WriteProvenance(w, c.provenance);
  }

  method WritePci(w: Writer, p: PciAddress)
    modifies w
    ensures forall rest :: w.buf + rest == old(w.buf) + PutPci(p, rest)
  {
    hide PutU16, PutU8;
    w.U16(p.segment);
    w.U8(p.bus);
    w.U8(p.device);
    w.U8(p.func);
  }

  predicate NicStringsFit(n: NicRecord) {
    |n.osName| <= MAX_STRING && |n.osDescription| <= MAX_STRING
  }

  method WriteDeviceClass(w: Writer, kind: DeviceKind, functionClass: FunctionClass)
    modifies w
    ensures forall rest :: w.buf + rest == old(w.buf) + PutDeviceClass(kind, functionClass, rest)
  {
    hide PutU8;
    w.U8(DeviceKindCode(kind));
    w.U8(FunctionClassCode(functionClass));
  }

  method WriteNicHead(w: Writer, n: NicRecord) returns (r: Outcome<()>)
    modifies w
    ensures r == if NicStringsFit(n) then Ok(()) else Err(ResourceLimit)
    ensures r.Ok? ==> forall rest :: w.buf + rest == old(w.buf) + PutNicHead(HeadOf(n), rest)
  {
    hide PutU8, PutU16, PutU64, PutString, PutPci, PutDeviceClass;
    w.U64(n.id);
    w.U64(n.generation);
    var _ :- w.String(n.osName);
    var _ :- w.String(n.osDescription);
    WritePci(w, n.pci);
    w.U16(n.vendorId);
    w.U16(n.deviceId);
    w.U16(n.subsystemVendorId);
    w.U16(n.subsystemId);
    w.U8(n.revision);
    WriteDeviceClass(w, n.deviceKind, n.functionClass);
    return Ok(());
  }

  method WriteNic(w: Writer, n: NicRecord) returns (r: Outcome<()>)
    modifies w
    ensures r == if NicStringsFit(n) then Ok(()) else Err(ResourceLimit)
    ensures r.Ok? ==> forall rest :: w.buf + rest == old(w.buf) + PutNic(n, rest)
  {
    hide PutNicHead, PutU64, PutCapability, PutProvenance;
    var _ :- WriteNicHead(w, n);
    WriteCapability(w, n.capability);
    w.U64(n.numaNode);
    WriteProvenance(w, n.provenance);
    return Ok(());
  }

  method WriteGpu(w: Writer, g: GpuRecord) returns (r: Outcome<()>)
    modifies w
    ensures r == if |g.name| <= MAX_STRING then Ok(()) else Err(ResourceLimit)
    ensures r.Ok? ==> forall rest :: w.buf + rest == old(w.buf) + PutGpu(g, rest)
  {
    hide PutU8, PutU64, PutString, PutPci, PutProvenance;
    w.U64(g.id);
    w.U64(g.generation);
    var _ :- w.String(g.name);
    WritePci(w, g.pci);
    w.U64(g.cudaDevice);
    w.U8(if g.cudaVerified then 1 else 0);
    w.U64(g.numaNode);
    WriteProvenance(w, g.provenance);
    return Ok(());
  }

  method WriteRefs(w: Writer, h: ResidencyRecord)
    modifies w
    ensures forall rest :: w.buf + rest == old(w.buf) + PutRefs(RefsOf(h), rest)
  {
    hide PutU64;
    w.U64(h.id);
    w.U64(h.generation);
    w.U64(h.nic);
    w.U64(h.func);
    w.U64(h.port);
    w.U64(h.queue);
    w.U64(h.targetGpu);
    w.U64(h.targetNuma);
    w.U64(h.targetEndpoint);
  }

  method WriteHistory(w: Writer, h: ResidencyRecord) returns (r: Outcome<()>)
    modifies w
    ensures r == if |h.explanation| <= MAX_STRING then Ok(()) else Err(ResourceLimit)
    ensures r.Ok? ==> forall rest :: w.buf + rest == old(w.buf) + PutHistory(h, rest)
  {
    hide PutRefs, PutU8, PutU64, PutString;
    WriteRefs(w, h);
    w.U8(ResidencyStateCode(h.state));
    w.U64(h.topologyGeneration);
    w.U8(OwnershipCode(h.ownership));
    w.U64(h.ownerWorker);
    w.U64(h.ownerBoot);
    w.U64(h.epoch);
    w.U8(LifecycleCode(h.lifecycle));
    var _ :- w.String(h.explanation);
    return Ok(());
  }

  // ---------------------------------------------------------------- sorting

  /** Any arrangement a sort by id may leave; here equal ids keep their order. */
  method SortById<T>(xs: seq<T>, id: T -> U64) returns (sorted: seq<T>)
    ensures Arranged(id, xs, sorted)
  {
    sorted := [];
    for i := 0 to |xs|
      invariant Arranged(id, xs[..i], sorted)
    {
      assert xs[..i + 1] == xs[..i] + [xs[i]];
      sorted := InsertById(sorted, xs[i], id);
    }
    assert xs[..|xs|] == xs;
  }

  lemma InsertedIsSorted<T>(xs: seq<T>, k: nat, x: T, id: T -> U64)
    requires SortedBy(id, xs) && k <= |xs|
    requires forall j | 0 <= j < k :: id(xs[j]) <= id(x)
    requires k < |xs| ==> id(x) <= id(xs[k])
    ensures SortedBy(id, xs[..k] + [x] + xs[k..])
  {
    var r := xs[..k] + [x] + xs[k..];
    assert forall j | 0 <= j < k :: r[j] == xs[j];
    assert forall j | k < j < |r| :: r[j] == xs[j - 1];
    forall i, j | 0 <= i < j < |r|
      ensures id(r[i]) <= id(r[j])
    {
    }
  }

  method InsertById<T>(xs: seq<T>, x: T, id: T -> U64) returns (r: seq<T>)
    requires SortedBy(id, xs)
    ensures SortedBy(id, r) && multiset(r) == multiset(xs) + multiset{x}
  {
    hide SortedBy;
    var k := 0;
    while k < |xs| && id(xs[k]) <= id(x)
      invariant k <= |xs|
      invariant forall j | 0 <= j < k :: id(xs[j]) <= id(x)
    {
      k := k + 1;
    }
    InsertedIsSorted(xs, k, x, id);
    assert xs == xs[..k] + xs[k..];
    r := xs[..k] + [x] + xs[k..];
  }

  // ---------------------------------------------------------------- serialization

  lemma FiveFlags(f: seq<bool>, i: nat)
    requires i + 5 <= |f|
    ensures FlagWord(f[i..]) == Weight(f[i], 1) + Weight(f[i + 1], 2) + Weight(f[i + 2], 4) + Weight(f[i + 3], 8)
                                + Weight(f[i + 4], 16) + 32 * FlagWord(f[i + 5..])
  {
    hide FlagWord;
    FlagWordStep(f, i);
    FlagWordStep(f, i + 1);
    FlagWordStep(f, i + 2);
    FlagWordStep(f, i + 3);
    FlagWordStep(f, i + 4);
  }

  lemma PolicyWordIs(p: PersistedPolicy)
    ensures PolicyWord(p) ==
            Weight(p.requireRdma, 1) + Weight(p.requireSriov, 2) + Weight(p.requireOffload, 4) + Weight(p.requireLocalMemory, 8)
            + Weight(p.requireSameNuma, 16) + Weight(p.requireSameRootComplex, 32) + Weight(p.requireSamePcieSwitch, 64)
            + Weight(p.requireReady, 128) + Weight(p.requireLinkUp, 256) + Weight(p.allowSynthetic, 512)
  {
    hide FlagWord;
    var f := PolicyFlags(p);
    FlagWordEnds(f);
    FiveFlags(f, 0);
    FiveFlags(f, 5);
  }

  method PolicyFlagWord(p: PersistedPolicy) returns (flags: U32)
    ensures flags == PolicyWord(p)
  {
    hide PolicyWord;
    PolicyWordIs(p);
    var word: int := 0;
    if p.requireRdma { word := word + 1; }
    if p.requireSriov { word := word + 2; }
    if p.requireOffload { word := word + 4; }
    if p.requireLocalMemory { word := word + 8; }
    if p.requireSameNuma { word := word + 16; }
    if p.requireSameRootComplex { word := word + 32; }
    if p.requireSamePcieSwitch { word := word + 64; }
    if p.requireReady { word := word + 128; }
    if p.requireLinkUp { word := word + 256; }
    if p.allowSynthetic { word := word + 512; }
    flags := word;
  }

  method WriteHeader(w: Writer, st: PersistentState)
    modifies w
    ensures forall rest :: w.buf + rest == old(w.buf) + PutU32(st.formatVersion, PutU64(st.epoch, PutPolicy(st.policy, rest)))
  {
    hide PutU32, PutU64, PolicyWord;
    w.U32(st.formatVersion);
    w.U64(st.epoch);
    var flags := PolicyFlagWord(st.policy);
    w.U32(flags);
    w.U64(st.policy.freshnessLimit);
  }

  method WriteNics(w: Writer, nics: seq<NicRecord>) returns (r: Outcome<()>)
    modifies w
    ensures r.Ok? <==> |nics| <= MAX_SAVED_NICS && forall i | 0 <= i < |nics| :: NicStringsFit(nics[i])
    ensures r.Err? ==> r.code == ResourceLimit
    ensures r.Ok? ==> forall rest :: w.buf + rest == old(w.buf) + PutSection(NicCodec(false), nics, rest)
  {
    hide PutNic, PutU32;
    if |nics| > MAX_SAVED_NICS {
      return Err(ResourceLimit);
    }
    w.U32(|nics|);
    label counted:
    for i := 0 to |nics|
      invariant forall k | 0 <= k < i :: NicStringsFit(nics[k])
      invariant forall rest :: w.buf + PutList(NicCodec(false), nics[i..], rest) == old@counted(w.buf) + PutList(NicCodec(false), nics, rest)
    {
      assert nics[i..][1..] == nics[i + 1..];
      var _ :- WriteNic(w, nics[i]);
    }
    return Ok(());
  }

  method WriteGpus(w: Writer, gpus: seq<GpuRecord>) returns (r: Outcome<()>)
    modifies w
    ensures r.Ok? <==> |gpus| <= MAX_SAVED_GPUS && forall i | 0 <= i < |gpus| :: |gpus[i].name| <= MAX_STRING
    ensures r.Err? ==> r.code == ResourceLimit
    ensures r.Ok? ==> forall rest :: w.buf + rest == old(w.buf) + PutSection(GpuCodec(false), gpus, rest)
  {
    hide PutGpu, PutU32;
    if |gpus| > MAX_SAVED_GPUS {
      return Err(ResourceLimit);
    }
    w.U32(|gpus|);
    label counted:
    for i := 0 to |gpus|
      invariant forall k | 0 <= k < i :: |gpus[k].name| <= MAX_STRING
      invariant forall rest :: w.buf + PutList(GpuCodec(false), gpus[i..], rest) == old@counted(w.buf) + PutList(GpuCodec(false), gpus, rest)
    {
      assert gpus[i..][1..] == gpus[i + 1..];
      var _ :- WriteGpu(w, gpus[i]);
    }
    return Ok(());
  }

  method WriteHistories(w: Writer, history: seq<ResidencyRecord>) returns (r: Outcome<()>)
    modifies w
    ensures r.Ok? <==> |history| <= MAX_SAVED_HISTORY && forall i | 0 <= i < |history| :: |history[i].explanation| <= MAX_STRING
    ensures r.Err? ==> r.code == ResourceLimit
    ensures r.Ok? ==> forall rest :: w.buf + rest == old(w.buf) + PutSection(HistoryCodec(false), history, rest)
  {
    hide PutHistory, PutU32;
    if |history| > MAX_SAVED_HISTORY {
      return Err(ResourceLimit);
    }
    w.U32(|history|);
    label counted:
    for i := 0 to |history|
      invariant forall k | 0 <= k < i :: |history[k].explanation| <= MAX_STRING
      invariant forall rest :: w.buf + PutList(HistoryCodec(false), history[i..], rest) == old@counted(w.buf) + PutList(HistoryCodec(false), history, rest)
    {
      assert history[i..][1..] == history[i + 1..];
      var _ :- WriteHistory(w, history[i]);
    }
    return Ok(());
  }

  /** Counts and strings the format can hold. */
  ghost predicate Storable(st: PersistentState) {
    && WithinSavedLimits(st)
    && (forall i | 0 <= i < |st.nics| :: NicStringsFit(st.nics[i]))
    && (forall i | 0 <= i < |st.gpus| :: |st.gpus[i].name| <= MAX_STRING)
    && (forall i | 0 <= i < |st.history| :: |st.history[i].explanation| <= MAX_STRING)
  }

  lemma EmptyEnds(a: Bytes, b: Bytes)
    requires a + [] == [] + b
    ensures a == b
  {
    assert a + [] == a && [] + b == b;
  }

  /** Writes the three lists in the order they stand. */
  method WriteLists(w: Writer, st: PersistentState) returns (r: Outcome<()>)
    modifies w
    ensures r == if Storable(st) then Ok(()) else Err(ResourceLimit)
    ensures r.Ok? ==> w.buf + [] == old(w.buf) + PutNicSection(false, st)
  {
    hide PutSection, NicStringsFit;
    var _ :- WriteNics(w, st.nics);
    var _ :- WriteGpus(w, st.gpus);
    var _ :- WriteHistories(w, st.history);
    return Ok(());
  }

  lemma OrderingKeepsStorability(st: PersistentState, ordered: PersistentState)
    requires Orders(st, ordered)
    ensures Storable(ordered) <==> Storable(st)
  {
    hide NicStringsFit, SortedBy;
    SameLength(st.nics, ordered.nics);
    SameLength(st.gpus, ordered.gpus);
    SameLength(st.history, ordered.history);
    AllInAnyOrder(NicStringsFit, st.nics, ordered.nics);
    AllInAnyOrder((g: GpuRecord) => |g.name| <= MAX_STRING, st.gpus, ordered.gpus);
    AllInAnyOrder((h: ResidencyRecord) => |h.explanation| <= MAX_STRING, st.history, ordered.history);
  }

  /** Sorts each list and writes it; refuses exactly the states the format cannot hold. */
  method Serialize(st: PersistentState) returns (r: Outcome<Bytes>)
    ensures r.Ok? <==> Storable(st)
    ensures r.Err? ==> r.code == ResourceLimit
    ensures r.Ok? ==> exists ordered :: Orders(st, ordered) && r.value == Encode(ordered)
  {
    hide PutU32, PutU64, PutPolicy, PutSection, Storable, Arranged;
    var nics := SortById(st.nics, IdOfNic);
    var gpus := SortById(st.gpus, IdOfGpu);
    var history := SortById(st.history, IdOfHistory);
    var ordered := st.(nics := nics, gpus := gpus, history := history);
    OrderingKeepsStorability(st, ordered);
    var w := new Writer();
    WriteHeader(w, ordered);
    var written := WriteLists(w, ordered);
    if written.Err? {
      return Err(ResourceLimit);
    }
    EmptyEnds(w.buf, Encode(ordered));
    return Ok(w.buf);
  }

  // ---------------------------------------------------------------- the reader

  /** A cursor that never passes the end of its data. */
  class Reader {
    const data: Bytes
    const signedChar: bool
    var pos: nat

    predicate Valid()
      reads this
    {
      pos <= |data|
    }

    /** What is still to be read. */
    function Rest(): Bytes
      requires Valid()
      reads this
    {
      data[pos..]
    }

    constructor (data: Bytes, signedChar: bool)
      ensures Valid() && Rest() == data && this.data == data && this.signedChar == signedChar
    {
      this.data, this.signedChar, pos := data, signedChar, 0;
    }

    /** The call yields what the stream reader yields and leaves what it leaves. */
    ghost predicate Yields<T>(p: Parse<T>, r: Outcome<T>)
      requires Valid()
      reads this
    {
      match p
      case Parsed(v, rest) => r == Ok(v) && Rest() == rest
      case Bad(code) => r == Err(code)
    }

    method U8() returns (r: Outcome<U8>)
      requires Valid()
      modifies this
      ensures Valid() && Yields(ReadU8(old(Rest())), r)
    {
      if 1 > |data| - pos {
        return Err(IntegrityFailure);
      }
      pos := pos + 1;
      return Ok(data[pos - 1]);
    }

    /** Widens the low byte through a plain `char`, as the source does. */
    method U16() returns (r: Outcome<U16>)
      requires Valid()
      modifies this
      ensures Valid() && Yields(ReadU16(signedChar, old(Rest())), r)
    {
      if 2 > |data| - pos {
        return Err(IntegrityFailure);
      }
      var low: int := data[pos];
      var high: int := data[pos + 1];
      var widened: int := if signedChar && low >= 0x80 then low - 0x100 else low;
      var v := if widened < 0 then 0x1_0000 + widened else widened + 0x100 * high;
      pos := pos + 2;
      return Ok(v);
    }

    /** Accumulates n bytes, least significant first. */
    method Fixed(n: nat) returns (r: Outcome<nat>)
      requires Valid()
      modifies this
      ensures Valid() && Yields(ReadFixed(old(Rest()), n), r)
    {
      if n > |data| - pos {
        return Err(IntegrityFailure);
      }
      var v := ReadLittleEndian(data, pos, n);
      assert data[pos..][..n] == data[pos..pos + n];
      pos := pos + n;
      return Ok(v);
    }

    method U32() returns (r: Outcome<U32>)
      requires Valid()
      modifies this
      ensures Valid() && Yields(ReadU32(old(Rest())), r)
    {
      Pow256Values();
      var v :- Fixed(4);
      return Ok(v);
    }

    method U64() returns (r: Outcome<U64>)
      requires Valid()
      modifies this
      ensures Valid() && Yields(ReadU64(old(Rest())), r)
    {
      Pow256Values();
      var v :- Fixed(8);
      return Ok(v);
    }

    method String() returns (r: Outcome<Bytes>)
      requires Valid()
      modifies this
      ensures Valid() && Yields(ReadString(signedChar, old(Rest())), r)
    {
      hide ReadU16;
      var n :- U16();
      if n > |data| - pos {
        return Err(IntegrityFailure);
      }
      assert data[pos..][..n] == data[pos..pos + n];
      pos := pos + n;
      return Ok(data[pos - n..pos]);
    }

    method AtEnd() returns (b: bool)
      requires Valid()
      ensures b <==> Rest() == []
    {
      return pos == |data|;
    }
  }

  function CheckedCode<T>(v: Option<T>): Outcome<T> {
    match v case Some(x) => Ok(x) case None => Err(IntegrityFailure)
  }

  method ReadOneSources(r: Reader, n: nat) returns (out: Outcome<seq<Source>>)
    requires r.Valid()
    modifies r
    ensures r.Valid() && r.Yields(ReadSources(n, [], old(r.Rest())), out)
  {
    hide ReadU8, SourceOf;
    var sources := [];
    for i := 0 to n
      invariant r.Valid()
      invariant ReadSources(n - i, sources, r.Rest()) == ReadSources(n, [], old(r.Rest()))
    {
      var c :- r.U8();
      var source :- CheckedCode(SourceOf(c));
      sources := sources + [source];
    }
    return Ok(sources);
  }

  method ReadOneProvenance(r: Reader) returns (out: Outcome<Provenance>)
    requires r.Valid()
    modifies r
    ensures r.Valid() && r.Yields(ReadProvenance(old(r.Rest())), out)
  {
    hide ReadU8, ReadU32, ReadSources, EvidenceKindOf;
    var k :- r.U8();
    var kind :- CheckedCode(EvidenceKindOf(k));
    var n :- r.U32();
    if n > MAX_SOURCES {
      return Err(IntegrityFailure);
    }
    var sources :- ReadOneSources(r, n);
    return Ok(Provenance(kind, sources));
  }

  method ReadOneCapability(r: Reader) returns (out: Outcome<CapabilitySet>)
    requires r.Valid()
    modifies r
    ensures r.Valid() && r.Yields(ReadCapability(old(r.Rest())), out)
  {
    hide ReadU64, ReadU32, ReadProvenance, FlagBit;
    var generation :- r.U64();
    var w :- r.U32();
    var provenance :- ReadOneProvenance(r);
    return Ok(CapabilitySet(generation, FlagBit(w, 0), FlagBit(w, 1), FlagBit(w, 2), FlagBit(w, 3), FlagBit(w, 4), provenance));
  }

  method ReadOnePci(r: Reader) returns (out: Outcome<PciAddress>)
    requires r.Valid()
    modifies r
    ensures r.Valid() && r.Yields(ReadPci(r.signedChar, old(r.Rest())), out)
  {
    hide ReadU16, ReadU8;
    var segment :- r.U16();
    var bus :- r.U8();
    var device :- r.U8();
    var func :- r.U8();
    return Ok(PciAddress(segment, bus, device, func));
  }

  method ReadOneDeviceClass(r: Reader) returns (out: Outcome<(DeviceKind, FunctionClass)>)
    requires r.Valid()
    modifies r
    ensures r.Valid() && r.Yields(ReadDeviceClass(old(r.Rest())), out)
  {
    hide ReadU8;
    var kindCode :- r.U8();
    var classCode :- r.U8();
    var kind :- CheckedCode(DeviceKindOf(kindCode));
    var functionClass :- CheckedCode(FunctionClassOf(classCode));
    return Ok((kind, functionClass));
  }

  method ReadOneNicHead(r: Reader) returns (out: Outcome<NicHead>)
    requires r.Valid()
    modifies r
    ensures r.Valid() && r.Yields(ReadNicHead(r.signedChar, old(r.Rest())), out)
  {
    hide ReadU8, ReadU16, ReadU64, ReadString, ReadPci, ReadDeviceClass;
    var id :- r.U64();
    var generation :- r.U64();
    var osName :- r.String();
    var osDescription :- r.String();
    var pci :- ReadOnePci(r);
    var vendorId :- r.U16();
    var deviceId :- r.U16();
    var subsystemVendorId :- r.U16();
    var subsystemId :- r.U16();
    var revision :- r.U8();
    var deviceClass :- ReadOneDeviceClass(r);
    return Ok(NicHead(id, generation, osName, osDescription, pci, vendorId, deviceId, subsystemVendorId, subsystemId,
                      revision, deviceClass.0, deviceClass.1));
  }

  method ReadOneNic(r: Reader) returns (out: Outcome<NicRecord>)
    requires r.Valid()
    modifies r
    ensures r.Valid() && r.Yields(ReadNic(r.signedChar, old(r.Rest())), out)
  {
    hide ReadNicHead, ReadU64, ReadCapability, ReadProvenance;
    var h :- ReadOneNicHead(r);
    var capability :- ReadOneCapability(r);
    var numaNode :- r.U64();
    var provenance :- ReadOneProvenance(r);
    // Dynamic fields are not persisted as authority.
    return Ok(NicRecord(h.id, h.generation, h.osName, h.osDescription, h.pci, h.vendorId, h.deviceId, h.subsystemVendorId,
                        h.subsystemId, h.revision, h.deviceKind, h.functionClass, capability, numaNode,
                        LinkUnknown, HealthUnknown, RevalidationRequired, provenance, 0));
  }

  method ReadOneGpu(r: Reader) returns (out: Outcome<GpuRecord>)
    requires r.Valid()
    modifies r
    ensures r.Valid() && r.Yields(ReadGpu(r.signedChar, old(r.Rest())), out)
  {
    hide ReadU8, ReadU64, ReadString, ReadPci, ReadProvenance;
    var id :- r.U64();
    var generation :- r.U64();
    var name :- r.String();
    var pci :- ReadOnePci(r);
    var cudaDevice :- r.U64();
    var verified :- r.U8();
    var numaNode :- r.U64();
    var provenance :- ReadOneProvenance(r);
    return Ok(GpuRecord(id, generation, name, pci, cudaDevice, verified != 0, numaNode, provenance, 0));
  }

  method ReadOneHistory(r: Reader) returns (out: Outcome<ResidencyRecord>)
    requires r.Valid()
    modifies r
    ensures r.Valid() && r.Yields(ReadHistory(r.signedChar, old(r.Rest())), out)
  {
    hide ReadRefs, ReadU8, ReadU64, ReadString, ResidencyStateOf, OwnershipOf, LifecycleOf;
    var refs :- ReadOneRefs(r);
    var stateCode :- r.U8();
    var state :- CheckedCode(ResidencyStateOf(stateCode));
    var topology :- r.U64();
    var ownershipCode :- r.U8();
    var ownership :- CheckedCode(OwnershipOf(ownershipCode));
    var worker :- r.U64();
    var boot :- r.U64();
    var epoch :- r.U64();
    var lifecycleCode :- r.U8();
    var lifecycle :- CheckedCode(LifecycleOf(lifecycleCode));
    var explanation :- r.String();
    return Ok(ResidencyRecord(refs.id, refs.generation, refs.nic, refs.func, refs.port, refs.queue, refs.gpu, refs.numa, refs.endpoint,
                              state, 0, topology, 0, ownership, worker, boot, epoch, NO_LOCALITY, 0, NO_PROVENANCE, 0,
                              lifecycle, explanation));
  }

  method ReadOneRefs(r: Reader) returns (out: Outcome<HistoryRefs>)
    requires r.Valid()
    modifies r
    ensures r.Valid() && r.Yields(ReadRefs(old(r.Rest())), out)
  {
    hide ReadU64;
    var id :- r.U64();
    var generation :- r.U64();
    var nic :- r.U64();
    var func :- r.U64();
    var port :- r.U64();
    var queue :- r.U64();
    var gpu :- r.U64();
    var numa :- r.U64();
    var endpoint :- r.U64();
    return Ok(HistoryRefs(id, generation, nic, func, port, queue, gpu, numa, endpoint));
  }

  // ---------------------------------------------------------------- deserialization

  method ReadNics(r: Reader) returns (out: Outcome<seq<NicRecord>>)
    requires r.Valid()
    modifies r
    ensures r.Valid() && r.Yields(ReadSection(NicCodec(r.signedChar), MAX_SAVED_NICS, old(r.Rest())), out)
  {
    hide ReadU32, ReadNic;
    var n :- r.U32();
    if n > MAX_SAVED_NICS {
      return Err(IntegrityFailure);
    }
    var nics := [];
    ghost var start := r.Rest();
    ghost var codec := NicCodec(r.signedChar);
    for i := 0 to n
      invariant r.Valid()
      invariant ReadList(codec, n - i, nics, r.Rest()) == ReadList(codec, n, [], start)
    {
      var nic :- ReadOneNic(r);
      if nic.id == 0 {
        return Err(IntegrityFailure);
      }
      for k := 0 to |nics|
        invariant forall j | 0 <= j < k :: nics[j].id != nic.id
      {
        if nics[k].id == nic.id {
          return Err(IntegrityFailure);
        }
      }
      nics := nics + [nic];
    }
    return Ok(nics);
  }

  method ReadGpus(r: Reader) returns (out: Outcome<seq<GpuRecord>>)
    requires r.Valid()
    modifies r
    ensures r.Valid() && r.Yields(ReadSection(GpuCodec(r.signedChar), MAX_SAVED_GPUS, old(r.Rest())), out)
  {
    hide ReadU32, ReadGpu;
    var n :- r.U32();
    if n > MAX_SAVED_GPUS {
      return Err(IntegrityFailure);
    }
    var gpus := [];
    ghost var start := r.Rest();
    ghost var codec := GpuCodec(r.signedChar);
    for i := 0 to n
      invariant r.Valid()
      invariant ReadList(codec, n - i, gpus, r.Rest()) == ReadList(codec, n, [], start)
    {
      var gpu :- ReadOneGpu(r);
      if gpu.id == 0 {
        return Err(IntegrityFailure);
      }
      for k := 0 to |gpus|
        invariant forall j | 0 <= j < k :: gpus[j].id != gpu.id
      {
        if gpus[k].id == gpu.id {
          return Err(IntegrityFailure);
        }
      }
      gpus := gpus + [gpu];
    }
    return Ok(gpus);
  }

  method ReadHistories(r: Reader) returns (out: Outcome<seq<ResidencyRecord>>)
    requires r.Valid()
    modifies r
    ensures r.Valid() && r.Yields(ReadSection(HistoryCodec(r.signedChar), MAX_SAVED_HISTORY, old(r.Rest())), out)
  {
    hide ReadU32, ReadHistory;
    var n :- r.U32();
    if n > MAX_SAVED_HISTORY {
      return Err(IntegrityFailure);
    }
    var history := [];
    ghost var start := r.Rest();
    ghost var codec := HistoryCodec(r.signedChar);
    for i := 0 to n
      invariant r.Valid()
      invariant ReadList(codec, n - i, history, r.Rest()) == ReadList(codec, n, [], start)
    {
      var record :- ReadOneHistory(r);
      history := history + [record];
    }
    return Ok(history);
  }

  method ReadOnePolicy(r: Reader) returns (out: Outcome<PersistedPolicy>)
    requires r.Valid()
    modifies r
    ensures r.Valid() && r.Yields(ReadPolicy(old(r.Rest())), out)
  {
    hide ReadU32, ReadU64, FlagBit;
    var w :- r.U32();
    var limit :- r.U64();
    return Ok(PersistedPolicy(FlagBit(w, 0), FlagBit(w, 1), FlagBit(w, 2), FlagBit(w, 3), FlagBit(w, 4),
                              FlagBit(w, 5), FlagBit(w, 6), FlagBit(w, 7), FlagBit(w, 8), FlagBit(w, 9), limit));
  }

  method ReadOneBody(r: Reader, version: U32) returns (out: Outcome<PersistentState>)
    requires r.Valid()
    modifies r
    ensures r.Valid() && r.Yields(ReadBody(r.signedChar, version, old(r.Rest())), out)
  {
    hide ReadU64, ReadPolicy, ReadSection, NicCodec, GpuCodec, HistoryCodec;
    var epoch :- r.U64();
    var policy :- ReadOnePolicy(r);
    var nics :- ReadNics(r);
    var gpus :- ReadGpus(r);
    var history :- ReadHistories(r);
    return Ok(PersistentState(version, epoch, nics, gpus, policy, history));
  }

  method ReadToEnd(r: Reader) returns (out: Outcome<PersistentState>)
    requires r.Valid()
    modifies r
    ensures r.Valid() && out == Decode(r.signedChar, old(r.Rest()))
  {
    hide ReadU32, ReadBody;
    var version :- r.U32();
    if version > FORMAT_VERSION {
      return Err(ErrorCode.Unsupported);
    }
    var st :- ReadOneBody(r, version);
    var done := r.AtEnd();
    if !done {
      return Err(IntegrityFailure);
    }
    return Ok(st);
  }

  method Deserialize(signedChar: bool, payload: Bytes) returns (out: Outcome<PersistentState>)
    ensures out == Decode(signedChar, payload)
  {
    hide Decode;
    var r := new Reader(payload, signedChar);
    out := ReadToEnd(r);
  }

  // ---------------------------------------------------------------- files

  /** "NICRESIDENCYPERSIST". */
  const MAGIC: Bytes := [78, 73, 67, 82, 69, 83, 73, 68, 69, 78, 67, 89, 80, 69, 82, 83, 73, 83, 84]

  const CHECKSUM_SIZE := 8

  /** Magic, payload, and the payload's hash in eight bytes. */
  function FileOf(payload: Bytes): Bytes {
    MAGIC + payload + LittleEndian(Hash(payload), CHECKSUM_SIZE)
  }

  /** The payload of a file whose length, magic and checksum are right. */
  function PayloadOf(file: Bytes): Outcome<Bytes> {
    if |file| < |MAGIC| + CHECKSUM_SIZE then Err(IntegrityFailure)
    else if file[..|MAGIC|] != MAGIC then Err(IntegrityFailure)
    else
      var payload := file[|MAGIC|..|file| - CHECKSUM_SIZE];
      if Hash(payload) != FromLittleEndian(file[|file| - CHECKSUM_SIZE..]) then Err(IntegrityFailure) else Ok(payload)
  }

  function LoadFile(signedChar: bool, file: Bytes): Outcome<PersistentState> {
    var payload :- PayloadOf(file);
    Decode(signedChar, payload)
  }

  method Save(st: PersistentState) returns (r: Outcome<Bytes>)
    ensures r.Ok? <==> Storable(st)
    ensures r.Err? ==> r.code == ResourceLimit
    ensures r.Ok? ==> exists ordered :: Orders(st, ordered) && r.value == FileOf(Encode(ordered))
  {
    hide Orders, Storable, Encode;
    var serialized := Serialize(st);
    if serialized.Err? {
      return Err(ResourceLimit);
    }
    var payload := serialized.value;
    var sum := ComputeHash(payload);
    var file := AppendLittleEndian(MAGIC + payload, sum, CHECKSUM_SIZE);
    return Ok(file);
  }

  method Load(signedChar: bool, file: Bytes) returns (r: Outcome<PersistentState>)
    ensures r == LoadFile(signedChar, file)
  {
    if |file| < |MAGIC| + CHECKSUM_SIZE || file[..|MAGIC|] != MAGIC {
      return Err(IntegrityFailure);
    }
    var payload := file[|MAGIC|..|file| - CHECKSUM_SIZE];
    var sum := ReadLittleEndian(file, |file| - CHECKSUM_SIZE, CHECKSUM_SIZE);
    assert file[|file| - CHECKSUM_SIZE..] == file[|file| - CHECKSUM_SIZE..|file| - CHECKSUM_SIZE + CHECKSUM_SIZE];
    var hash := ComputeHash(payload);
    if hash != sum {
      return Err(IntegrityFailure);
    }
    r := Deserialize(signedChar, payload);
  }

  // ---------------------------------------------------------------- integrity

  /** The files that pass the integrity checks are exactly those a save of some payload writes. */
  lemma IntactFilesAreSavedFiles(file: Bytes, payload: Bytes)
    ensures PayloadOf(file) == Ok(payload) <==> file == FileOf(payload)
  {
    Pow256Values();
    if PayloadOf(file) == Ok(payload) {
      var tail := file[|file| - CHECKSUM_SIZE..];
      LittleEndianEncodes(tail);
      assert file == file[..|MAGIC|] + payload + tail;
    }
    if file == FileOf(payload) {
      var sum := LittleEndian(Hash(payload), CHECKSUM_SIZE);
      LittleEndianDecodes(Hash(payload), CHECKSUM_SIZE);
      assert file[..|MAGIC|] == MAGIC;
      assert file[|MAGIC|..|file| - CHECKSUM_SIZE] == payload;
      assert file[|file| - CHECKSUM_SIZE..] == sum;
    }
  }

  /** A saved file loads as what was saved, sorted and in durable form, exactly when the state is
      recoverable. */
  lemma SavedFileLoads(signedChar: bool, st: PersistentState, ordered: PersistentState)
    requires Orders(st, ordered) && Storable(st)
    ensures LoadFile(signedChar, FileOf(Encode(ordered))) == Ok(Canonical(ordered)) <==> Recoverable(signedChar, st)
  {
    hide Orders, FileOf, PayloadOf, Encode, Decode, Canonical, Recoverable;
    OrderingKeepsRecoverability(signedChar, st, ordered);
    SaveLoadRoundTrip(signedChar, st, ordered);
    IntactFilesAreSavedFiles(FileOf(Encode(ordered)), Encode(ordered));
  }

  predicate SourcesBounded(st: PersistentState) {
    && (forall i | 0 <= i < |st.nics| :: |st.nics[i].provenance.sources| <= MAX_SOURCES && |st.nics[i].capability.provenance.sources| <= MAX_SOURCES)
    && (forall i | 0 <= i < |st.gpus| :: |st.gpus[i].provenance.sources| <= MAX_SOURCES)
  }

  /** With an unsigned `char` nothing that a save accepts is lost, given a known version, valid
      distinct ids and bounded source lists. */
  lemma UnsignedReaderLosesNothing(st: PersistentState, ordered: PersistentState)
    requires Orders(st, ordered) && Storable(st)
    requires st.formatVersion <= FORMAT_VERSION && SourcesBounded(st)
    requires DistinctIds(NicCodec(false), st.nics) && DistinctIds(GpuCodec(false), st.gpus)
    ensures LoadFile(false, FileOf(Encode(ordered))) == Ok(Canonical(ordered))
  {
    hide LoadFile, FileOf, Encode, Canonical, Orders, DistinctIds;
    assert Recoverable(false, st);
    SavedFileLoads(false, st, ordered);
  }

  lemma SavedFileParts(payload: Bytes)
    ensures
      var file := FileOf(payload);
      && |file| == |MAGIC| + |payload| + CHECKSUM_SIZE
      && file[..|MAGIC|] == MAGIC
      && file[|MAGIC|..|file| - CHECKSUM_SIZE] == payload
      && file[|file| - CHECKSUM_SIZE..] == LittleEndian(Hash(payload), CHECKSUM_SIZE)
  {
  }

  /** Every substitution of one byte anywhere in a saved file, in the magic, the payload or the
      checksum, for payloads of every length, makes loading fail with an integrity error. */
  lemma OneChangedByteIsDetected(signedChar: bool, payload: Bytes, i: nat, b: U8)
    requires i < |FileOf(payload)| && b != FileOf(payload)[i]
    ensures LoadFile(signedChar, FileOf(payload)[i := b]) == Err(IntegrityFailure)
  {
    hide Decode;
    var file := FileOf(payload);
    var changed := file[i := b];
    var m, end := |MAGIC|, |file| - CHECKSUM_SIZE;
    SavedFileParts(payload);
    if i < m {
      assert changed[..m][i] != MAGIC[i];
    } else if i < end {
      assert changed[m..end] == payload[i - m := b];
      assert changed[end..] == file[end..];
      HashDetectsOneByte(payload, i - m, b);
      Pow256Values();
      LittleEndianDecodes(Hash(payload), CHECKSUM_SIZE);
    } else {
      assert changed[m..end] == payload;
      assert changed[end..][i - end] != file[end..][i - end];
      Pow256Values();
      LittleEndianEncodes(changed[end..]);
    }
  }
}

/** Round trips and integrity of the durable format. */
module PersistenceProofs {
  import opened Words
  import opened Localities
  import opened Records
  import opened Ordering
  import opened PersistenceFormat

  // ---------------------------------------------------------------- single records

  lemma NicHeadRoundTrip(signedChar: bool, h: NicHead, rest: Bytes)
    ensures HeadSurvives(signedChar, h) ==> ReadNicHead(signedChar, PutNicHead(h, rest)) == Parsed(h, rest)
    ensures !HeadSurvives(signedChar, h) && ReadNicHead(signedChar, PutNicHead(h, rest)).Parsed? ==>
              ReadNicHead(signedChar, PutNicHead(h, rest)).value != h
  {
    hide ReadU8, ReadU16, ReadU64, ReadString, ReadPci, ReadDeviceClass,
      PutU8, PutU16, PutU64, PutString, PutPci, PutDeviceClass;
  }

  /** A written NIC reads back in durable form exactly when its strings, 16-bit fields and source
      lists survive; otherwise whatever is read is another record. */
  lemma NicRoundTrip(signedChar: bool, n: NicRecord, rest: Bytes)
    ensures NicSurvives(signedChar, n) ==> ReadNic(signedChar, PutNic(n, rest)) == Parsed(CanonicalNic(n), rest)
    ensures !NicSurvives(signedChar, n) && ReadNic(signedChar, PutNic(n, rest)).Parsed? ==>
              ReadNic(signedChar, PutNic(n, rest)).value != CanonicalNic(n)
  {
    hide ReadNicHead, ReadU64, ReadCapability, ReadProvenance, PutNicHead, PutU64, PutCapability, PutProvenance, HeadSurvives;
    NicHeadRoundTrip(signedChar, HeadOf(n), PutCapability(n.capability, PutU64(n.numaNode, PutProvenance(n.provenance, rest))));
  }

  lemma GpuRoundTrip(signedChar: bool, g: GpuRecord, rest: Bytes)
    ensures GpuSurvives(signedChar, g) ==> ReadGpu(signedChar, PutGpu(g, rest)) == Parsed(CanonicalGpu(g), rest)
    ensures !GpuSurvives(signedChar, g) && ReadGpu(signedChar, PutGpu(g, rest)).Parsed? ==>
              ReadGpu(signedChar, PutGpu(g, rest)).value != CanonicalGpu(g)
  {
    hide ReadU8, ReadU64, ReadString, ReadPci, ReadProvenance, PutU8, PutU64, PutString, PutPci, PutProvenance;
  }

  lemma HistoryRoundTrip(signedChar: bool, h: ResidencyRecord, rest: Bytes)
    ensures HistorySurvives(signedChar, h) ==> ReadHistory(signedChar, PutHistory(h, rest)) == Parsed(CanonicalHistory(h), rest)
    ensures !HistorySurvives(signedChar, h) && ReadHistory(signedChar, PutHistory(h, rest)).Parsed? ==>
              ReadHistory(signedChar, PutHistory(h, rest)).value != CanonicalHistory(h)
  {
    hide ReadRefs, ReadU64, ReadString, ReadResidencyState, ReadOwnership, ReadLifecycle,
      PutRefs, PutU64, PutString, PutResidencyState, PutOwnership, PutLifecycle;
  }

  lemma ReadStringSurvives(signedChar: bool, s: Bytes)
    ensures ReadString(signedChar, s).Parsed? ==> StringSurvives(signedChar, ReadString(signedChar, s).value)
  {
    if |s| >= 2 {
      ReadValuesSurvive(signedChar, s[0], s[1]);
    }
  }

  lemma ReadU16Survives(signedChar: bool, s: Bytes)
    ensures ReadU16(signedChar, s).Parsed? ==> Survives(signedChar, ReadU16(signedChar, s).value)
  {
    if |s| >= 2 {
      ReadValuesSurvive(signedChar, s[0], s[1]);
    }
  }

  lemma ReadPciSurvives(signedChar: bool, s: Bytes)
    ensures ReadPci(signedChar, s).Parsed? ==> Survives(signedChar, ReadPci(signedChar, s).value.segment)
  {
    ReadU16Survives(signedChar, s);
  }

  lemma AllReadsSurvive(signedChar: bool)
    ensures forall s :: ReadU16(signedChar, s).Parsed? ==> Survives(signedChar, ReadU16(signedChar, s).value)
    ensures forall s :: ReadString(signedChar, s).Parsed? ==> StringSurvives(signedChar, ReadString(signedChar, s).value)
    ensures forall s :: ReadPci(signedChar, s).Parsed? ==> Survives(signedChar, ReadPci(signedChar, s).value.segment)
  {
    forall s: Bytes
      ensures ReadU16(signedChar, s).Parsed? ==> Survives(signedChar, ReadU16(signedChar, s).value)
      ensures ReadString(signedChar, s).Parsed? ==> StringSurvives(signedChar, ReadString(signedChar, s).value)
      ensures ReadPci(signedChar, s).Parsed? ==> Survives(signedChar, ReadPci(signedChar, s).value.segment)
    {
      ReadU16Survives(signedChar, s);
      ReadStringSurvives(signedChar, s);
      ReadPciSurvives(signedChar, s);
    }
  }

  lemma ReadNicHeadIsStable(signedChar: bool, s: Bytes)
    ensures ReadNicHead(signedChar, s).Parsed? ==> HeadSurvives(signedChar, ReadNicHead(signedChar, s).value)
  {
    hide ReadU8, ReadU16, ReadU64, ReadString, ReadPci, ReadDeviceClass, Survives, StringSurvives;
    AllReadsSurvive(signedChar);
  }

  /** Whatever is read is already in durable form and survives another round trip, even through
      the sign-extending reader, whose image is its own set of fixed points. */
  lemma ReadNicIsStable(signedChar: bool, s: Bytes)
    ensures ReadNic(signedChar, s).Parsed? ==>
              var n := ReadNic(signedChar, s).value;
              NicSurvives(signedChar, n) && CanonicalNic(n) == n
  {
    hide ReadNicHead, ReadU64, ReadCapability, ReadProvenance, HeadSurvives;
    ReadNicHeadIsStable(signedChar, s);
  }

  lemma ReadGpuIsStable(signedChar: bool, s: Bytes)
    ensures ReadGpu(signedChar, s).Parsed? ==>
              var g := ReadGpu(signedChar, s).value;
              GpuSurvives(signedChar, g) && CanonicalGpu(g) == g
  {
    hide ReadU8, ReadU64, ReadString, ReadPci, ReadProvenance, Survives, StringSurvives;
    AllReadsSurvive(signedChar);
  }

  lemma ReadHistoryIsStable(signedChar: bool, s: Bytes)
    ensures ReadHistory(signedChar, s).Parsed? ==>
              var h := ReadHistory(signedChar, s).value;
              HistorySurvives(signedChar, h) && CanonicalHistory(h) == h
  {
    hide ReadRefs, ReadU64, ReadString, ReadResidencyState, ReadOwnership, ReadLifecycle, Survives, StringSurvives;
    AllReadsSurvive(signedChar);
  }

  // ---------------------------------------------------------------- the law of a codec

  /** Surviving records round-trip to durable form, others never do, ids are durable, and every
      record read is durable and survives. */
  ghost predicate Lawful<T(!new)>(c: Codec<T>, canonical: T -> T, survives: T -> bool) {
    && (forall x, rest :: survives(x) ==> c.read(c.put(x, rest)) == Parsed(canonical(x), rest))
    && (forall x, rest :: !survives(x) && c.read(c.put(x, rest)).Parsed? ==> c.read(c.put(x, rest)).value != canonical(x))
    && (forall x :: c.id(canonical(x)) == c.id(x))
    && (forall s :: c.read(s).Parsed? ==> survives(c.read(s).value) && canonical(c.read(s).value) == c.read(s).value)
  }

  lemma NicCodecIsLawful(signedChar: bool)
    ensures Lawful(NicCodec(signedChar), CanonicalNic, (n: NicRecord) => NicSurvives(signedChar, n))
  {
    hide PutNic, ReadNic, NicSurvives;
    var c := NicCodec(signedChar);
    forall n, rest
      ensures NicSurvives(signedChar, n) ==> c.read(c.put(n, rest)) == Parsed(CanonicalNic(n), rest)
      ensures !NicSurvives(signedChar, n) && c.read(c.put(n, rest)).Parsed? ==> c.read(c.put(n, rest)).value != CanonicalNic(n)
    {
      NicRoundTrip(signedChar, n, rest);
    }
    forall s | c.read(s).Parsed?
      ensures NicSurvives(signedChar, c.read(s).value) && CanonicalNic(c.read(s).value) == c.read(s).value
    {
      ReadNicIsStable(signedChar, s);
    }
  }

  lemma GpuCodecIsLawful(signedChar: bool)
    ensures Lawful(GpuCodec(signedChar), CanonicalGpu, (g: GpuRecord) => GpuSurvives(signedChar, g))
  {
    hide PutGpu, ReadGpu, GpuSurvives;
    var c := GpuCodec(signedChar);
    forall g, rest
      ensures GpuSurvives(signedChar, g) ==> c.read(c.put(g, rest)) == Parsed(CanonicalGpu(g), rest)
      ensures !GpuSurvives(signedChar, g) && c.read(c.put(g, rest)).Parsed? ==> c.read(c.put(g, rest)).value != CanonicalGpu(g)
    {
      GpuRoundTrip(signedChar, g, rest);
    }
    forall s | c.read(s).Parsed?
      ensures GpuSurvives(signedChar, c.read(s).value) && CanonicalGpu(c.read(s).value) == c.read(s).value
    {
      ReadGpuIsStable(signedChar, s);
    }
  }

  lemma HistoryCodecIsLawful(signedChar: bool)
    ensures Lawful(HistoryCodec(signedChar), CanonicalHistory, (h: ResidencyRecord) => HistorySurvives(signedChar, h))
  {
    hide PutHistory, ReadHistory, HistorySurvives;
    var c := HistoryCodec(signedChar);
    forall h, rest
      ensures HistorySurvives(signedChar, h) ==> c.read(c.put(h, rest)) == Parsed(CanonicalHistory(h), rest)
      ensures !HistorySurvives(signedChar, h) && c.read(c.put(h, rest)).Parsed? ==> c.read(c.put(h, rest)).value != CanonicalHistory(h)
    {
      HistoryRoundTrip(signedChar, h, rest);
    }
    forall s | c.read(s).Parsed?
      ensures HistorySurvives(signedChar, c.read(s).value) && CanonicalHistory(c.read(s).value) == c.read(s).value
    {
      ReadHistoryIsStable(signedChar, s);
    }
  }

  // ---------------------------------------------------------------- lists

  function Map<T, U>(f: T -> U, xs: seq<T>): (ys: seq<U>)
    ensures |ys| == |xs| && forall i | 0 <= i < |xs| :: ys[i] == f(xs[i])
  {
    seq(|xs|, i requires 0 <= i < |xs| => f(xs[i]))
  }

  /** Every record survives and, where ids are checked, ids are valid and distinct. */
  ghost predicate Loadable<T>(c: Codec<T>, survives: T -> bool, xs: seq<T>) {
    && (forall i | 0 <= i < |xs| :: survives(xs[i]))
    && (c.checked ==> DistinctIds(c, xs))
  }

  ghost predicate DistinctIds<T>(c: Codec<T>, xs: seq<T>) {
    (forall i | 0 <= i < |xs| :: c.id(xs[i]) != 0) && DistinctBy(c.id, xs)
  }

  /** Loading xs after acc: each record survives and is not refused where it stands. */
  ghost predicate LoadableAfter<T>(c: Codec<T>, canonical: T -> T, survives: T -> bool, acc: seq<T>, xs: seq<T>)
    decreases |xs|
  {
    xs == [] ||
    (&& survives(xs[0]) && !Refused(c, acc, xs[0])
     && LoadableAfter(c, canonical, survives, acc + [canonical(xs[0])], xs[1..]))
  }

  lemma {:induction false} LoadableUnrolls<T(!new)>(c: Codec<T>, canonical: T -> T, survives: T -> bool, acc: seq<T>, xs: seq<T>)
    requires Lawful(c, canonical, survives)
    ensures LoadableAfter(c, canonical, survives, acc, xs) <==>
            && (forall i | 0 <= i < |xs| :: survives(xs[i]))
            && (c.checked ==> && DistinctIds(c, xs)
                              && forall i, j | 0 <= i < |acc| && 0 <= j < |xs| :: c.id(acc[i]) != c.id(xs[j]))
    decreases |xs|
  {
    if xs != [] {
      var next := acc + [canonical(xs[0])];
      LoadableUnrolls(c, canonical, survives, next, xs[1..]);
      assert xs == [xs[0]] + xs[1..];
      assert next[|acc|] == canonical(xs[0]);
      assert forall i | 0 <= i < |acc| :: next[i] == acc[i];
      if c.checked && !Refused(c, acc, xs[0]) {
        assert (forall i, j | 0 <= i < |next| && 0 <= j < |xs[1..]| :: c.id(next[i]) != c.id(xs[1..][j])) <==>
               && (forall i, j | 0 <= i < |acc| && 0 <= j < |xs[1..]| :: c.id(acc[i]) != c.id(xs[1..][j]))
               && (forall j | 0 <= j < |xs[1..]| :: c.id(xs[0]) != c.id(xs[1..][j]));
      }
    }
  }

  /** A written list reads back in durable form exactly when it is loadable; otherwise the read
      fails or yields another list. */
  lemma {:induction false} ListRoundTrip<T(!new)>(c: Codec<T>, canonical: T -> T, survives: T -> bool,
                                                  acc: seq<T>, xs: seq<T>, rest: Bytes)
    requires Lawful(c, canonical, survives)
    ensures
      var r := ReadList(c, |xs|, acc, PutList(c, xs, rest));
      if LoadableAfter(c, canonical, survives, acc, xs)
      then r == Parsed(acc + Map(canonical, xs), rest)
      else r.Parsed? ==> r.value != acc + Map(canonical, xs)
    decreases |xs|
  {
    if xs == [] {
      assert acc + Map(canonical, xs) == acc;
    } else {
      var tail := PutList(c, xs[1..], rest);
      var next := acc + [canonical(xs[0])];
      var want := acc + Map(canonical, xs);
      assert want == next + Map(canonical, xs[1..]);
      var first := c.read(c.put(xs[0], tail));
      if survives(xs[0]) {
        assert first == Parsed(canonical(xs[0]), tail);
        ListRoundTrip(c, canonical, survives, next, xs[1..], rest);
      } else if first.Parsed? && !Refused(c, acc, first.value) {
        assert want[|acc|] == canonical(xs[0]);
        var r := ReadList(c, |xs| - 1, acc + [first.value], first.rest);
        if r.Parsed? {
          assert r.value[..|acc| + 1][|acc|] == first.value;
        }
      }
    }
  }

  lemma LoadableFromScratch<T(!new)>(c: Codec<T>, canonical: T -> T, survives: T -> bool, xs: seq<T>)
    requires Lawful(c, canonical, survives)
    ensures LoadableAfter(c, canonical, survives, [], xs) <==> Loadable(c, survives, xs)
  {
    hide LoadableAfter, Lawful, DistinctIds;
    LoadableUnrolls(c, canonical, survives, [], xs);
  }

  lemma SectionRoundTrip<T(!new)>(c: Codec<T>, canonical: T -> T, survives: T -> bool, limit: nat, xs: seq<T>, rest: Bytes)
    requires Lawful(c, canonical, survives) && |xs| <= limit < TWO_32
    ensures
      var r := ReadSection(c, limit, PutSection(c, xs, rest));
      if Loadable(c, survives, xs) then r == Parsed(Map(canonical, xs), rest)
      else r.Parsed? ==> r.value != Map(canonical, xs)
  {
    hide ReadList, PutList, LoadableAfter, PutU32, ReadU32, Lawful, Map;
    ListRoundTrip(c, canonical, survives, [], xs, rest);
    LoadableFromScratch(c, canonical, survives, xs);
    assert [] + Map(canonical, xs) == Map(canonical, xs);
  }

  /** Whatever list is read is loadable and durable. */
  lemma {:induction false} ReadListIsStable<T(!new)>(c: Codec<T>, canonical: T -> T, survives: T -> bool, n: nat, acc: seq<T>, s: Bytes)
    requires Lawful(c, canonical, survives)
    requires Loadable(c, survives, acc) && Map(canonical, acc) == acc
    requires ReadList(c, n, acc, s).Parsed?
    ensures
      var xs := ReadList(c, n, acc, s).value;
      Loadable(c, survives, xs) && Map(canonical, xs) == xs
    decreases n
  {
    if n > 0 {
      var x := c.read(s).value;
      var next := acc + [x];
      assert Map(canonical, next) == Map(canonical, acc) + [canonical(x)];
      ReadListIsStable(c, canonical, survives, n - 1, next, c.read(s).rest);
    }
  }

  lemma ReadSectionIsStable<T(!new)>(c: Codec<T>, canonical: T -> T, survives: T -> bool, limit: nat, s: Bytes)
    requires Lawful(c, canonical, survives) && ReadSection(c, limit, s).Parsed?
    ensures
      var xs := ReadSection(c, limit, s).value;
      Loadable(c, survives, xs) && Map(canonical, xs) == xs && |xs| <= limit
  {
    var n := ReadU32(s);
    ReadListIsStable(c, canonical, survives, n.value, [], n.rest);
  }

  /** Lists are written the same way whatever reader is going to be used. */
  lemma {:induction false} PutListIgnoresReader<T>(c: Codec<T>, d: Codec<T>, xs: seq<T>, rest: Bytes)
    requires forall x, r :: c.put(x, r) == d.put(x, r)
    ensures PutList(c, xs, rest) == PutList(d, xs, rest)
    decreases |xs|
  {
    if xs != [] {
      PutListIgnoresReader(c, d, xs[1..], rest);
    }
  }

  // ---------------------------------------------------------------- whole states

  /** Durable form of all records; the order is kept. */
  function Canonical(st: PersistentState): PersistentState {
    st.(nics := Map(CanonicalNic, st.nics), gpus := Map(CanonicalGpu, st.gpus), history := Map(CanonicalHistory, st.history))
  }

  predicate WithinSavedLimits(st: PersistentState) {
    |st.nics| <= MAX_SAVED_NICS && |st.gpus| <= MAX_SAVED_GPUS && |st.history| <= MAX_SAVED_HISTORY
  }

  /** A known version, valid and distinct NIC and GPU ids, and records that survive the reader. */
  ghost predicate Recoverable(signedChar: bool, st: PersistentState) {
    && st.formatVersion <= FORMAT_VERSION
    && Loadable(NicCodec(signedChar), (n: NicRecord) => NicSurvives(signedChar, n), st.nics)
    && Loadable(GpuCodec(signedChar), (g: GpuRecord) => GpuSurvives(signedChar, g), st.gpus)
    && Loadable(HistoryCodec(signedChar), (h: ResidencyRecord) => HistorySurvives(signedChar, h), st.history)
  }

  function PutHistorySection(signedChar: bool, st: PersistentState): Bytes {
    PutSection(HistoryCodec(signedChar), st.history, [])
  }

  function PutGpuSection(signedChar: bool, st: PersistentState): Bytes {
    PutSection(GpuCodec(signedChar), st.gpus, PutHistorySection(signedChar, st))
  }

  function PutNicSection(signedChar: bool, st: PersistentState): Bytes {
    PutSection(NicCodec(signedChar), st.nics, PutGpuSection(signedChar, st))
  }

  lemma EncodingIgnoresReader(signedChar: bool, st: PersistentState)
    ensures Encode(st) == PutU32(st.formatVersion, PutU64(st.epoch, PutPolicy(st.policy, PutNicSection(signedChar, st))))
  {
    hide PutNic, PutGpu, PutHistory, PutU32, PutU64, PutPolicy;
    PutListIgnoresReader(HistoryCodec(false), HistoryCodec(signedChar), st.history, []);
    PutListIgnoresReader(GpuCodec(false), GpuCodec(signedChar), st.gpus, PutHistorySection(signedChar, st));
    PutListIgnoresReader(NicCodec(false), NicCodec(signedChar), st.nics, PutGpuSection(signedChar, st));
  }

  /** A state within the limits decodes to its durable form exactly when it is recoverable. Nothing
      else, in particular no ordering, matters. */
  lemma DecodeInvertsEncodeExactly(signedChar: bool, st: PersistentState)
    requires WithinSavedLimits(st)
    ensures Decode(signedChar, Encode(st)) == Ok(Canonical(st)) <==> Recoverable(signedChar, st)
  {
    hide PutNic, PutGpu, PutHistory, ReadNic, ReadGpu, ReadHistory, PutSection, ReadSection, PutPolicy, ReadPolicy,
      PutU32, PutU64, ReadU32, ReadU64, Loadable, NicCodec, GpuCodec, HistoryCodec;
    EncodingIgnoresReader(signedChar, st);
    NicCodecIsLawful(signedChar);
    GpuCodecIsLawful(signedChar);
    HistoryCodecIsLawful(signedChar);
    SectionRoundTrip(NicCodec(signedChar), CanonicalNic, (n: NicRecord) => NicSurvives(signedChar, n), MAX_SAVED_NICS, st.nics, PutGpuSection(signedChar, st));
    SectionRoundTrip(GpuCodec(signedChar), CanonicalGpu, (g: GpuRecord) => GpuSurvives(signedChar, g), MAX_SAVED_GPUS, st.gpus, PutHistorySection(signedChar, st));
    SectionRoundTrip(HistoryCodec(signedChar), CanonicalHistory, (h: ResidencyRecord) => HistorySurvives(signedChar, h), MAX_SAVED_HISTORY, st.history, []);
  }

  /** Everything decoded is well formed: within the limits, of a known version, with valid and
      distinct NIC and GPU ids, in durable form, and able to survive another round trip. */
  lemma DecodedIsRecoverable(signedChar: bool, s: Bytes, st: PersistentState)
    ensures Decode(signedChar, s) == Ok(st) ==>
              Recoverable(signedChar, st) && WithinSavedLimits(st) && Canonical(st) == st
  {
    if Decode(signedChar, s) == Ok(st) {
      DecodedListsAreStable(signedChar, s);
    }
  }

  lemma DecodedListsAreStable(signedChar: bool, s: Bytes)
    requires Decode(signedChar, s).Ok?
    ensures
      var st := Decode(signedChar, s).value;
      Recoverable(signedChar, st) && WithinSavedLimits(st) && Canonical(st) == st
  {
    hide ReadNic, ReadGpu, ReadHistory, ReadSection, ReadPolicy, ReadU32, ReadU64, Loadable, NicCodec, GpuCodec, HistoryCodec;
    NicCodecIsLawful(signedChar);
    GpuCodecIsLawful(signedChar);
    HistoryCodecIsLawful(signedChar);
    var body := ReadU32(s).rest;
    var s1 := ReadU64(body).rest;
    var s2 := ReadPolicy(s1).rest;
    ReadSectionIsStable(NicCodec(signedChar), CanonicalNic, (n: NicRecord) => NicSurvives(signedChar, n), MAX_SAVED_NICS, s2);
    var s3 := ReadSection(NicCodec(signedChar), MAX_SAVED_NICS, s2).rest;
    ReadSectionIsStable(GpuCodec(signedChar), CanonicalGpu, (g: GpuRecord) => GpuSurvives(signedChar, g), MAX_SAVED_GPUS, s3);
    var s4 := ReadSection(GpuCodec(signedChar), MAX_SAVED_GPUS, s3).rest;
    ReadSectionIsStable(HistoryCodec(signedChar), CanonicalHistory, (h: ResidencyRecord) => HistorySurvives(signedChar, h), MAX_SAVED_HISTORY, s4);
  }

  // ---------------------------------------------------------------- orders

  ghost predicate SortedBy<T>(id: T -> U64, xs: seq<T>) {
    forall i, j | 0 <= i < j < |xs| :: id(xs[i]) <= id(xs[j])
  }

  /** One of the arrangements a sort by id may leave. */
  ghost predicate Arranged<T>(id: T -> U64, xs: seq<T>, sorted: seq<T>) {
    SortedBy(id, sorted) && multiset(sorted) == multiset(xs)
  }

  function IdOfNic(n: NicRecord): U64 { n.id }

  function IdOfGpu(g: GpuRecord): U64 { g.id }

  function IdOfHistory(h: ResidencyRecord): U64 { h.id }

  /** ordered is st with each list sorted by id; records of equal id may stand in any order. */
  ghost predicate Orders(st: PersistentState, ordered: PersistentState) {
    && ordered == st.(nics := ordered.nics, gpus := ordered.gpus, history := ordered.history)
    && Arranged(IdOfNic, st.nics, ordered.nics)
    && Arranged(IdOfGpu, st.gpus, ordered.gpus)
    && Arranged(IdOfHistory, st.history, ordered.history)
  }

  lemma LoadableInAnyOrder<T>(c: Codec<T>, survives: T -> bool, xs: seq<T>, ys: seq<T>)
    requires multiset(xs) == multiset(ys) && Loadable(c, survives, xs)
    ensures Loadable(c, survives, ys)
  {
    AllInAnyOrder(survives, xs, ys);
    if c.checked {
      AllInAnyOrder(x => c.id(x) != 0, xs, ys);
      DistinctInAnyOrder(c.id, xs, ys);
    }
  }

  lemma OrderingKeepsRecoverability(signedChar: bool, st: PersistentState, ordered: PersistentState)
    requires Orders(st, ordered)
    ensures Recoverable(signedChar, ordered) <==> Recoverable(signedChar, st)
    ensures WithinSavedLimits(ordered) <==> WithinSavedLimits(st)
  {
    hide Loadable, SortedBy;
    SameLength(st.nics, ordered.nics);
    SameLength(st.gpus, ordered.gpus);
    SameLength(st.history, ordered.history);
    LoadableEitherWay(NicCodec(signedChar), (n: NicRecord) => NicSurvives(signedChar, n), st.nics, ordered.nics);
    LoadableEitherWay(GpuCodec(signedChar), (g: GpuRecord) => GpuSurvives(signedChar, g), st.gpus, ordered.gpus);
    LoadableEitherWay(HistoryCodec(signedChar), (h: ResidencyRecord) => HistorySurvives(signedChar, h), st.history, ordered.history);
  }

  lemma LoadableEitherWay<T>(c: Codec<T>, survives: T -> bool, xs: seq<T>, ys: seq<T>)
    requires multiset(xs) == multiset(ys)
    ensures Loadable(c, survives, xs) <==> Loadable(c, survives, ys)
  {
    if Loadable(c, survives, xs) {
      LoadableInAnyOrder(c, survives, xs, ys);
    }
    if Loadable(c, survives, ys) {
      LoadableInAnyOrder(c, survives, ys, xs);
    }
  }

  /** With distinct ids a sort by id leaves exactly one arrangement. */
  lemma {:induction false} ArrangementIsUnique<T>(id: T -> U64, xs: seq<T>, ys: seq<T>)
    requires SortedBy(id, xs) && SortedBy(id, ys) && multiset(xs) == multiset(ys)
    requires DistinctBy(id, xs)
    ensures xs == ys
    decreases |xs|
  {
    SameLength(xs, ys);
    if xs != [] {
      SameFirst(id, xs, ys);
      assert xs == [xs[0]] + xs[1..] && ys == [ys[0]] + ys[1..];
      TailMultiset(xs);
      TailMultiset(ys);
      ArrangementIsUnique(id, xs[1..], ys[1..]);
    }
  }

  lemma SameFirst<T>(id: T -> U64, xs: seq<T>, ys: seq<T>)
    requires SortedBy(id, xs) && SortedBy(id, ys) && multiset(xs) == multiset(ys) && xs != [] && ys != []
    requires DistinctBy(id, xs)
    ensures xs[0] == ys[0]
  {
    var k := MembersOfPermutation(xs, ys, 0);
    var l := MembersOfPermutation(ys, xs, 0);
    assert id(xs[0]) <= id(xs[k]) && id(ys[0]) <= id(ys[l]);
  }

  lemma TailMultiset<T>(xs: seq<T>)
    requires xs != []
    ensures multiset(xs[1..]) == multiset(xs) - multiset{xs[0]}
  {
    assert xs == [xs[0]] + xs[1..];
  }

  // ---------------------------------------------------------------- the two persistence theorems

  /** What is saved comes back, sorted and in durable form, exactly when the state is recoverable,
      whichever arrangement the sort left. */
  lemma SaveLoadRoundTrip(signedChar: bool, st: PersistentState, ordered: PersistentState)
    requires WithinSavedLimits(st) && Orders(st, ordered)
    ensures Decode(signedChar, Encode(ordered)) == Ok(Canonical(ordered)) <==> Recoverable(signedChar, st)
  {
    hide Decode, Encode, Canonical, Recoverable;
    OrderingKeepsRecoverability(signedChar, st, ordered);
    DecodeInvertsEncodeExactly(signedChar, ordered);
  }

  /** Saving and reloading whatever was loaded gives the same state with its lists sorted and
      nothing else changed, even through the sign-extending reader. */
  lemma ReloadIsIdempotent(signedChar: bool, s: Bytes, st: PersistentState, ordered: PersistentState)
    requires Orders(st, ordered)
    ensures Decode(signedChar, s) == Ok(st) ==> Decode(signedChar, Encode(ordered)) == Ok(ordered)
  {
    hide Decode, Encode, Recoverable, Arranged;
    DecodedIsRecoverable(signedChar, s, st);
    if Decode(signedChar, s) == Ok(st) {
      SaveLoadRoundTrip(signedChar, st, ordered);
      CanonicalStaysCanonical(st, ordered);
    }
  }

  lemma CanonicalStaysCanonical(st: PersistentState, ordered: PersistentState)
    requires Orders(st, ordered) && Canonical(st) == st
    ensures Canonical(ordered) == ordered
  {
    hide CanonicalNic, CanonicalGpu, CanonicalHistory, SortedBy;
    CanonicalInAnyOrder(CanonicalNic, st.nics, ordered.nics);
    CanonicalInAnyOrder(CanonicalGpu, st.gpus, ordered.gpus);
    CanonicalInAnyOrder(CanonicalHistory, st.history, ordered.history);
  }

  lemma CanonicalInAnyOrder<T>(canonical: T -> T, xs: seq<T>, ys: seq<T>)
    requires multiset(xs) == multiset(ys) && Map(canonical, xs) == xs
    ensures Map(canonical, ys) == ys
  {
    forall j | 0 <= j < |ys|
      ensures canonical(ys[j]) == ys[j]
    {
      var i := MembersOfPermutation(xs, ys, j);
      assert canonical(xs[i]) == xs[i];
    }
  }

  /** Loaded NICs always require revalidation, carry no freshness, and have valid distinct ids. */
  lemma LoadedNicsAreFenced(signedChar: bool, s: Bytes, st: PersistentState, i: nat)
    requires i < |st.nics|
    ensures Decode(signedChar, s) == Ok(st) ==>
              && st.nics[i].lifecycle == RevalidationRequired && st.nics[i].freshness == 0 && st.nics[i].id != 0
              && forall j | 0 <= j < |st.nics| && j != i :: st.nics[j].id != st.nics[i].id
  {
    hide Decode;
    DecodedIsRecoverable(signedChar, s, st);
    if Decode(signedChar, s) == Ok(st) {
      assert st.nics[i] == CanonicalNic(st.nics[i]);
      assert DistinctIds(NicCodec(signedChar), st.nics);
      assert forall k | 0 <= k < |st.nics| :: NicCodec(signedChar).id(st.nics[k]) == st.nics[k].id;
    }
  }
}

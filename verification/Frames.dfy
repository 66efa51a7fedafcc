/** The framed worker protocol: a 13-byte header (magic, length, type, low word of the payload's
    hash), the payload, and the payloads of the two publishing messages. */
module Frames {
  import opened Words
  import opened Fnv
  import opened Localities
  import opened Records

  const MAGIC: U32 := 0x4E49_5243
  const MAX_FRAME := 65536
  const HEADER_SIZE := 13

  datatype MessageType = Hello | RegisterWorker | PublishNic | QueryResidency | RetireResidency | ReadyMessage | Ack | ErrorMessage

  function TypeCode(t: MessageType): U8 {
    match t
    case Hello => 1 case RegisterWorker => 2 case PublishNic => 3 case QueryResidency => 4
    case RetireResidency => 5 case ReadyMessage => 6 case Ack => 7 case ErrorMessage => 8
  }

  function TypeOf(c: U8): Option<MessageType> {
    match c
    case 1 => Some(Hello) case 2 => Some(RegisterWorker) case 3 => Some(PublishNic) case 4 => Some(QueryResidency)
    case 5 => Some(RetireResidency) case 6 => Some(ReadyMessage) case 7 => Some(Ack) case 8 => Some(ErrorMessage)
    case _ => None
  }

  lemma TypeCodesAreExact(c: U8, t: MessageType)
    ensures TypeOf(c) == Some(t) <==> c == TypeCode(t)
  {
  }

  // ---------------------------------------------------------------- frames

  predicate Fits(payload: Bytes) {
    |payload| + HEADER_SIZE <= MAX_FRAME
  }

  function Header(t: MessageType, payload: Bytes): (h: Bytes)
    ensures |h| == HEADER_SIZE
  {
    LittleEndian(MAGIC, 4) + LittleEndian(HEADER_SIZE + |payload|, 4) + [TypeCode(t)] + LittleEndian(LowHash(payload), 4)
  }

  /** One whole frame. */
  function FrameOf(t: MessageType, payload: Bytes): (s: Bytes)
    ensures |s| == HEADER_SIZE + |payload|
  {
    Header(t, payload) + payload
  }

  method Encode(t: MessageType, payload: Bytes) returns (r: Outcome<Bytes>)
    ensures r == if Fits(payload) then Ok(FrameOf(t, payload)) else Err(ResourceLimit)
  {
    if |payload| + HEADER_SIZE > MAX_FRAME {
      return Err(ResourceLimit);
    }
    var out := AppendLittleEndian([], MAGIC, 4);
    out := AppendLittleEndian(out, HEADER_SIZE + |payload|, 4);
    out := out + [TypeCode(t)];
    var sum := ComputeHash(payload);
    out := AppendLittleEndian(out, sum % TWO_32, 4);
    assert [] + LittleEndian(MAGIC, 4) == LittleEndian(MAGIC, 4);
    return Ok(out + payload);
  }

  /** The 32-bit word at an offset. */
  function WordAt(s: Bytes, i: nat): U32
    requires i + 4 <= |s|
  {
    Pow256Values();
    FromLittleEndian(s[i..i + 4])
  }

  /** The declared length, once eight bytes are there to tell it. */
  function HeaderLength(s: Bytes): Outcome<nat> {
    if |s| < 8 then Ok(0)
    else if WordAt(s, 0) != MAGIC then Err(ProtocolError)
    else if WordAt(s, 4) < HEADER_SIZE || WordAt(s, 4) > MAX_FRAME then Err(ProtocolError)
    else Ok(WordAt(s, 4))
  }

  datatype Frame = Frame(kind: MessageType, payload: Bytes, consumed: nat)

  /** A frame, a wish for more bytes, or the protocol error. */
  function Decoding(s: Bytes): Outcome<Option<Frame>> {
    if |s| < HEADER_SIZE then Ok(None)
    else
      var n :- HeaderLength(s);
      if n > |s| then Ok(None)
      else if TypeOf(s[8]).None? then Err(ProtocolError)
      else if LowHash(s[HEADER_SIZE..n]) != WordAt(s, 9) then Err(ProtocolError)
      else Ok(Some(Frame(TypeOf(s[8]).value, s[HEADER_SIZE..n], n)))
  }

  method TryDecode(s: Bytes) returns (r: Outcome<Option<Frame>>)
    ensures r == Decoding(s)
  {
    if |s| < HEADER_SIZE {
      return Ok(None);
    }
    var n :- HeaderLength(s);
    if n > |s| {
      return Ok(None);
    }
    var kind := TypeOf(s[8]);
    if kind.None? {
      return Err(ProtocolError);
    }
    var sum := ComputeHash(s[HEADER_SIZE..n]);
    var stored := ReadLittleEndian(s, 9, 4);
    if sum % TWO_32 != stored {
      return Err(ProtocolError);
    }
    return Ok(Some(Frame(kind.value, s[HEADER_SIZE..n], n)));
  }

  // ---------------------------------------------------------------- exact inverses

  /** A word is what its four bytes spell, both ways. */
  lemma WordAtIs(s: Bytes, i: nat, v: U32)
    requires i + 4 <= |s|
    ensures WordAt(s, i) == v <==> s[i..i + 4] == LittleEndian(v, 4)
  {
    Pow256Values();
    LittleEndianDecodes(v, 4);
    LittleEndianEncodes(s[i..i + 4]);
  }

  lemma PartsOf(a: Bytes, b: Bytes, t: U8, c: Bytes, payload: Bytes, rest: Bytes)
    requires |a| == 4 && |b| == 4 && |c| == 4
    ensures
      var s := a + b + [t] + c + payload + rest;
      && s[0..4] == a && s[4..8] == b && s[8] == t && s[9..13] == c
      && s[HEADER_SIZE..HEADER_SIZE + |payload|] == payload
  {
  }

  lemma HeaderParts(t: MessageType, payload: Bytes, rest: Bytes)
    ensures
      var s := FrameOf(t, payload) + rest;
      && s[0..4] == LittleEndian(MAGIC, 4)
      && s[4..8] == LittleEndian(HEADER_SIZE + |payload|, 4)
      && s[8] == TypeCode(t)
      && s[9..13] == LittleEndian(LowHash(payload), 4)
      && s[HEADER_SIZE..HEADER_SIZE + |payload|] == payload
  {
    hide LittleEndian, LowHash, TypeCode;
    PartsOf(LittleEndian(MAGIC, 4), LittleEndian(HEADER_SIZE + |payload|, 4), TypeCode(t), LittleEndian(LowHash(payload), 4), payload, rest);
  }

  lemma HeaderIsItsParts(s: Bytes, t: MessageType, payload: Bytes)
    requires |s| >= HEADER_SIZE
    requires s[0..4] == LittleEndian(MAGIC, 4) && s[4..8] == LittleEndian(HEADER_SIZE + |payload|, 4)
    requires s[8] == TypeCode(t) && s[9..13] == LittleEndian(LowHash(payload), 4)
    ensures s[..HEADER_SIZE] == Header(t, payload)
  {
    hide LittleEndian, LowHash;
    assert s[..HEADER_SIZE] == s[0..4] + s[4..8] + [s[8]] + s[9..13];
  }

  /** A decode succeeds exactly when the buffer starts with the encoding of what is decoded, and
      consumes that encoding, no more and no less. */
  lemma DecodeAcceptsExactlyEncodings(s: Bytes, f: Frame)
    ensures Decoding(s) == Ok(Some(f)) <==>
            Fits(f.payload) && f.consumed == |FrameOf(f.kind, f.payload)| && FrameOf(f.kind, f.payload) <= s
  {
    hide LowHash, LittleEndian, TypeOf, TypeCode, WordAt;
    if Decoding(s) == Ok(Some(f)) {
      WordAtIs(s, 0, MAGIC);
      WordAtIs(s, 4, f.consumed);
      WordAtIs(s, 9, LowHash(f.payload));
      TypeCodesAreExact(s[8], f.kind);
      HeaderIsItsParts(s, f.kind, f.payload);
      assert s[..f.consumed] == s[..HEADER_SIZE] + s[HEADER_SIZE..f.consumed];
    }
    if Fits(f.payload) && f.consumed == |FrameOf(f.kind, f.payload)| && FrameOf(f.kind, f.payload) <= s {
      DecodeInvertsEncode(f.kind, f.payload, s[f.consumed..]);
      assert s == FrameOf(f.kind, f.payload) + s[f.consumed..];
    }
  }

  /** Decoding a frame followed by anything returns its type, its payload and its length. */
  lemma DecodeInvertsEncode(t: MessageType, payload: Bytes, rest: Bytes)
    requires Fits(payload)
    ensures Decoding(FrameOf(t, payload) + rest) == Ok(Some(Frame(t, payload, |FrameOf(t, payload)|)))
  {
    hide LowHash, LittleEndian, TypeOf, TypeCode, WordAt;
    var s := FrameOf(t, payload) + rest;
    HeaderParts(t, payload, rest);
    WordAtIs(s, 0, MAGIC);
    WordAtIs(s, 4, HEADER_SIZE + |payload|);
    WordAtIs(s, 9, LowHash(payload));
    TypeCodesAreExact(s[8], t);
  }

  /** Any proper prefix of a frame asks for more, without an error. */
  lemma ProperPrefixAsksForMore(t: MessageType, payload: Bytes, k: nat)
    requires Fits(payload) && k < HEADER_SIZE + |payload|
    ensures Decoding(FrameOf(t, payload)[..k]) == Ok(None)
  {
    hide LowHash, LittleEndian, TypeOf, TypeCode, WordAt;
    var s := FrameOf(t, payload);
    if k >= HEADER_SIZE {
      HeaderParts(t, payload, []);
      assert s + [] == s;
      assert s[..k][0..4] == s[0..4] && s[..k][4..8] == s[4..8];
      WordAtIs(s[..k], 0, MAGIC);
      WordAtIs(s[..k], 4, HEADER_SIZE + |payload|);
    }
  }

  /** A verdict is final: once a buffer yields a frame or an error, further bytes change nothing. */
  lemma VerdictsAreFinal(s: Bytes, more: Bytes)
    ensures Decoding(s) == Ok(None) || Decoding(s + more) == Decoding(s)
  {
    hide LowHash, TypeOf;
    if Decoding(s) != Ok(None) {
      var t := s + more;
      assert t[0..4] == s[0..4] && t[4..8] == s[4..8] && t[9..13] == s[9..13] && t[8] == s[8];
      if HeaderLength(s).Ok? {
        var n := HeaderLength(s).value;
        assert t[HEADER_SIZE..n] == s[HEADER_SIZE..n];
      }
    }
  }

  // ---------------------------------------------------------------- streams of frames

  datatype Message = Message(kind: MessageType, payload: Bytes)

  function Stream(ms: seq<Message>): Bytes {
    if ms == [] then [] else FrameOf(ms[0].kind, ms[0].payload) + Stream(ms[1..])
  }

  predicate AllFit(ms: seq<Message>) {
    forall i | 0 <= i < |ms| :: Fits(ms[i].payload)
  }

  /** Decodes frame after frame; what is left is no complete frame. */
  function Messages(s: Bytes): (r: (seq<Message>, Bytes))
    decreases |s|
  {
    match Decoding(s)
    case Ok(Some(f)) =>
      DecodeAcceptsExactlyEncodings(s, f);
      var r := Messages(s[f.consumed..]);
      ([Message(f.kind, f.payload)] + r.0, r.1)
    case _ => ([], s)
  }

  /** A concatenation of frames decodes to its own list and leaves whatever follows, provided what
      follows does not itself start with a frame. */
  lemma {:induction false} StreamDecodes(ms: seq<Message>, rest: Bytes)
    requires AllFit(ms) && (Decoding(rest).Err? || Decoding(rest) == Ok(None))
    ensures Messages(Stream(ms) + rest) == (ms, rest)
  {
    hide Decoding, FrameOf;
    if ms == [] {
      assert Stream(ms) + rest == rest;
    } else {
      var tail := Stream(ms[1..]) + rest;
      StreamDecodes(ms[1..], rest);
      FrameThenMessages(ms[0], tail);
      assert Stream(ms) + rest == FrameOf(ms[0].kind, ms[0].payload) + tail;
      assert ms == [ms[0]] + ms[1..];
    }
  }

  lemma FrameThenMessages(m: Message, tail: Bytes)
    requires Fits(m.payload)
    ensures Messages(FrameOf(m.kind, m.payload) + tail) == ([m] + Messages(tail).0, Messages(tail).1)
  {
    hide Decoding, FrameOf;
    DecodeInvertsEncode(m.kind, m.payload, tail);
    assert (FrameOf(m.kind, m.payload) + tail)[|FrameOf(m.kind, m.payload)|..] == tail;
  }

  /** Every buffer is the stream of its messages followed by what is left. */
  lemma {:induction false} MessagesPartition(s: Bytes)
    ensures s == Stream(Messages(s).0) + Messages(s).1 && AllFit(Messages(s).0)
    ensures Decoding(Messages(s).1).Err? || Decoding(Messages(s).1) == Ok(None)
    decreases |s|
  {
    hide Decoding, FrameOf;
    match Decoding(s)
    case Ok(Some(f)) =>
      DecodeAcceptsExactlyEncodings(s, f);
      var tail := s[f.consumed..];
      var m := Message(f.kind, f.payload);
      MessagesPartition(tail);
      assert s == FrameOf(f.kind, f.payload) + tail;
      StreamGrows(m, Messages(tail).0, Messages(tail).1);
    case _ =>
  }

  lemma StreamGrows(m: Message, ms: seq<Message>, rest: Bytes)
    ensures Stream([m] + ms) + rest == FrameOf(m.kind, m.payload) + (Stream(ms) + rest)
  {
    hide FrameOf;
    assert ([m] + ms)[1..] == ms;
  }

  /** Decoding does not depend on how the bytes arrive: decoding what has come, and then the undecoded
      rest with what comes next, yields what decoding it all at once does. After an error the rest
      only grows. */
  lemma {:induction false} ChunkingIsIrrelevant(s: Bytes, more: Bytes)
    ensures
      var (ms, rest) := Messages(s);
      && Messages(s + more) == (ms + Messages(rest + more).0, Messages(rest + more).1)
      && (Decoding(rest).Err? ==> Messages(s + more) == (ms, rest + more))
    decreases |s|
  {
    hide Decoding, FrameOf;
    VerdictsAreFinal(s, more);
    match Decoding(s)
    case Ok(Some(f)) =>
      DecodeAcceptsExactlyEncodings(s, f);
      var tail := s[f.consumed..];
      ChunkingIsIrrelevant(tail, more);
      FrameFirst(s, more, f);
      var m, now := Message(f.kind, f.payload), Messages(tail);
      var next := Messages(now.1 + more);
      assert ([m] + now.0) + next.0 == [m] + (now.0 + next.0);
    case _ =>
      assert [] + Messages(s + more).0 == Messages(s + more).0;
  }

  lemma FrameFirst(s: Bytes, more: Bytes, f: Frame)
    requires Decoding(s) == Ok(Some(f)) && f.consumed <= |s|
    ensures
      var r := Messages(s[f.consumed..] + more);
      Messages(s + more) == ([Message(f.kind, f.payload)] + r.0, r.1)
  {
    hide Decoding, FrameOf;
    VerdictsAreFinal(s, more);
    assert (s + more)[f.consumed..] == s[f.consumed..] + more;
  }

  /** Two lists of messages with the same bytes are the same list. */
  lemma StreamsAreUnique(ms: seq<Message>, ns: seq<Message>)
    requires AllFit(ms) && AllFit(ns) && Stream(ms) == Stream(ns)
    ensures ms == ns
  {
    StreamDecodes(ms, []);
    StreamDecodes(ns, []);
    assert Stream(ms) + [] == Stream(ns) + [];
  }

  // ---------------------------------------------------------------- one changed byte

  lemma WordChanges(s: Bytes, i: nat, k: nat, b: U8)
    requires i <= k < i + 4 <= |s| && b != s[k]
    ensures WordAt(s[k := b], i) != WordAt(s, i)
  {
    var t := s[k := b];
    assert t[i..i + 4][k - i] != s[i..i + 4][k - i];
    LittleEndianEncodes(s[i..i + 4]);
    LittleEndianEncodes(t[i..i + 4]);
  }

  /** Where a byte of a frame can be changed, and what the decoder can then still accept: nothing if
      it lies in the magic, the checksum or the payload; if it is the type, the same payload under
      the new type exactly when that is a type at all, because the checksum leaves it out. */
  lemma OneChangedByte(t: MessageType, payload: Bytes, k: nat, b: U8, rest: Bytes)
    requires Fits(payload) && k < HEADER_SIZE + |payload|
    ensures
      var d := Decoding(FrameOf(t, payload)[k := b] + rest);
      b != FrameOf(t, payload)[k] ==>
      && (k < 4 || k >= 9 ==> d == Err(ProtocolError))
      && (k == 8 ==> d == match TypeOf(b)
                          case Some(u) => Ok(Some(Frame(u, payload, |FrameOf(t, payload)|)))
                          case None => Err(ProtocolError))
  {
    hide LowHash, LittleEndian, TypeOf, TypeCode, WordAt;
    if b == FrameOf(t, payload)[k] {
      return;
    }
    var s := FrameOf(t, payload) + rest;
    var c := FrameOf(t, payload)[k := b] + rest;
    assert c == s[k := b];
    var n := HEADER_SIZE + |payload|;
    HeaderParts(t, payload, rest);
    WordAtIs(s, 0, MAGIC);
    WordAtIs(s, 4, n);
    WordAtIs(s, 9, LowHash(payload));
    if k < 4 {
      WordChanges(s, 0, k, b);
    } else if k >= 8 {
      assert c[0..4] == s[0..4] && c[4..8] == s[4..8];
      WordAtIs(c, 0, MAGIC);
      WordAtIs(c, 4, n);
      if k == 8 {
        assert c[9..13] == s[9..13] && c[HEADER_SIZE..n] == s[HEADER_SIZE..n];
        WordAtIs(c, 9, LowHash(payload));
      } else if k < HEADER_SIZE {
        assert c[HEADER_SIZE..n] == payload;
        WordChanges(s, 9, k, b);
      } else {
        assert c[HEADER_SIZE..n] == payload[k - HEADER_SIZE := b];
        assert c[9..13] == s[9..13];
        WordAtIs(c, 9, LowHash(payload));
        LowHashDetectsOneByte(payload, k - HEADER_SIZE, b);
      }
    }
  }

  lemma BodyOf(s: Bytes, c: Bytes, header: Bytes, payload: Bytes, rest: Bytes)
    requires |header| == HEADER_SIZE && s == header + payload + rest
    requires |c| == |s| && c[8..] == s[8..]
    ensures c[HEADER_SIZE..] == payload + rest
  {
    assert c[HEADER_SIZE..] == c[8..][HEADER_SIZE - 8..];
    assert s[HEADER_SIZE..] == s[8..][HEADER_SIZE - 8..];
  }

  /** A changed length is an error when out of bounds, asks for more when past the buffer, and
      otherwise passes exactly when the bytes it delimits hash to the old checksum. */
  lemma ChangedLength(t: MessageType, payload: Bytes, length: U32, rest: Bytes)
    requires Fits(payload)
    ensures
      var s := FrameOf(t, payload) + rest;
      var c := s[..4] + LittleEndian(length, 4) + s[8..];
      Decoding(c) ==
        if length < HEADER_SIZE || length > MAX_FRAME then Err(ProtocolError)
        else if length > |s| then Ok(None)
        else if LowHash((payload + rest)[..length - HEADER_SIZE]) == LowHash(payload)
             then Ok(Some(Frame(t, (payload + rest)[..length - HEADER_SIZE], length)))
        else Err(ProtocolError)
  {
    hide LowHash, LittleEndian, TypeOf, TypeCode, WordAt;
    var s := FrameOf(t, payload) + rest;
    var c := s[..4] + LittleEndian(length, 4) + s[8..];
    HeaderParts(t, payload, rest);
    assert c[0..4] == s[0..4] && c[4..8] == LittleEndian(length, 4) && c[8] == s[8] && c[9..13] == s[9..13];
    WordAtIs(c, 0, MAGIC);
    WordAtIs(c, 4, length);
    WordAtIs(c, 9, LowHash(payload));
    TypeCodesAreExact(c[8], t);
    if HEADER_SIZE <= length <= |s| {
      BodyOf(s, c, Header(t, payload), payload, rest);
      assert c[HEADER_SIZE..length] == c[HEADER_SIZE..][..length - HEADER_SIZE];
    }
  }

  // ---------------------------------------------------------------- the bytes in their order

  /** The types are numbered from 1 in this order, and no other byte is one. */
  lemma TypesAreNumbered(c: U8)
    ensures TypeOf(c) == if 1 <= c <= 8
                         then Some([Hello, RegisterWorker, PublishNic, QueryResidency, RetireResidency, ReadyMessage, Ack, ErrorMessage][c - 1])
                         else None
  {
  }

  /** A frame is "CRIN", its whole length, its type, the low word of the payload's hash, and the payload. */
  lemma FrameLayout(t: MessageType, payload: Bytes)
    ensures FrameOf(t, payload) ==
            [0x43, 0x52, 0x49, 0x4E] + LittleEndian(13 + |payload|, 4) + [TypeCode(t)] + LittleEndian(Hash(payload) % 0x1_0000_0000, 4) + payload
    ensures Fits(payload) <==> |payload| <= 65523
  {
    WordOfIs([0x43, 0x52, 0x49, 0x4E]);
    LittleEndianEncodes([0x43, 0x52, 0x49, 0x4E]);
    hide LittleEndian, Hash, TypeCode;
  }

  /** What a buffer gets, by its bytes: a wish for more exactly when the header is short, or sound but
      longer than the buffer; a frame exactly when it starts with one; and else the protocol error. */
  lemma VerdictByBytes(s: Bytes)
    ensures Decoding(s) == Ok(None) <==>
            |s| < 13 || (s[..4] == [0x43, 0x52, 0x49, 0x4E] && 13 <= WordOf(s[4..8]) <= 65536 && |s| < WordOf(s[4..8]))
    ensures Decoding(s).Err? ==> Decoding(s).code == ProtocolError
  {
    hide LowHash, TypeOf;
    if |s| >= 13 {
      assert s[0..4] == s[..4];
      WordOfIs(s[..4]);
      WordOfIs(s[4..8]);
      FourBytesDiffer(s[..4]);
    }
  }

  lemma FourBytesDiffer(w: Bytes)
    requires |w| == 4
    ensures FromLittleEndian(w) == MAGIC <==> w == [0x43, 0x52, 0x49, 0x4E]
  {
    WordOfIs([0x43, 0x52, 0x49, 0x4E]);
    LittleEndianEncodes(w);
    LittleEndianEncodes([0x43, 0x52, 0x49, 0x4E]);
    hide LittleEndian, FromLittleEndian;
  }

  // ---------------------------------------------------------------- payload readers

  /** A cursor over one payload. */
  class PayloadReader {
    const data: Bytes
    var pos: nat

    predicate Valid()
      reads this
    {
      pos <= |data|
    }

    constructor (data: Bytes)
      ensures Valid() && this.data == data && pos == 0
    {
      this.data, pos := data, 0;
    }

    /** The next n bytes as a number, or the protocol error when fewer are left. */
    method Fixed(n: nat) returns (r: Outcome<nat>)
      requires Valid()
      modifies this
      ensures Valid()
      ensures r.Ok? <==> |data| - old(pos) >= n
      ensures r.Ok? ==> pos == old(pos) + n && r.value == FromLittleEndian(data[old(pos)..pos]) < Pow256(n)
      ensures r.Err? ==> r.code == ProtocolError && pos == old(pos)
    {
      if n > |data| - pos {
        return Err(ProtocolError);
      }
      var v := ReadLittleEndian(data, pos, n);
      pos := pos + n;
      return Ok(v);
    }

    method U32() returns (r: Outcome<U32>)
      requires Valid()
      modifies this
      ensures Valid()
      ensures r.Ok? <==> |data| - old(pos) >= 4
      ensures r.Ok? ==> pos == old(pos) + 4 && r.value == WordAt(data, old(pos))
      ensures r.Err? ==> r.code == ProtocolError && pos == old(pos)
    {
      Pow256Values();
      var v :- Fixed(4);
      return Ok(v);
    }

    method U64() returns (r: Outcome<U64>)
      requires Valid()
      modifies this
      ensures Valid()
      ensures r.Ok? <==> |data| - old(pos) >= 8
      ensures r.Ok? ==> pos == old(pos) + 8 && r.value == LongAt(data, old(pos))
      ensures r.Err? ==> r.code == ProtocolError && pos == old(pos)
    {
      Pow256Values();
      var v :- Fixed(8);
      return Ok(v);
    }

    /** A 32-bit length and that many bytes. The reader, unlike the writer, sets no bound. */
    method Str() returns (r: Outcome<Bytes>)
      requires Valid()
      modifies this
      ensures Valid()
      ensures r.Ok? <==> |data| - old(pos) >= 4 && |data| - old(pos) - 4 >= WordAt(data, old(pos))
      ensures r.Ok? ==> pos == old(pos) + 4 + WordAt(data, old(pos)) && r.value == data[old(pos) + 4..pos]
      ensures r.Err? ==> r.code == ProtocolError
    {
      var n :- U32();
      if n > |data| - pos {
        return Err(ProtocolError);
      }
      pos := pos + n;
      return Ok(data[pos - n..pos]);
    }

    method Remaining() returns (n: nat)
      requires Valid()
      ensures n == |data| - pos
    {
      return |data| - pos;
    }
  }

  /** The 64-bit word at an offset. */
  function LongAt(s: Bytes, i: nat): U64
    requires i + 8 <= |s|
  {
    Pow256Values();
    FromLittleEndian(s[i..i + 8])
  }

  lemma LongAtIs(s: Bytes, i: nat, v: U64)
    requires i + 8 <= |s|
    ensures LongAt(s, i) == v <==> s[i..i + 8] == LittleEndian(v, 8)
  {
    Pow256Values();
    LittleEndianDecodes(v, 8);
    LittleEndianEncodes(s[i..i + 8]);
  }

  // ---------------------------------------------------------------- registering a worker

  /** Who speaks, in which incarnation and under which epoch. */
  datatype Speaker = Speaker(worker: WorkerId, boot: WorkerBootId, epoch: CoordinatorEpoch)

  function SpeakerBytes(a: Speaker): (s: Bytes)
    ensures |s| == 24
  {
    LittleEndian(a.worker, 8) + LittleEndian(a.boot, 8) + LittleEndian(a.epoch, 8)
  }

  function SpeakerAt(s: Bytes): Speaker
    requires |s| >= 24
  {
    Speaker(LongAt(s, 0), LongAt(s, 8), LongAt(s, 16))
  }

  method PayloadRegisterWorker(a: Speaker) returns (p: Bytes)
    ensures p == SpeakerBytes(a)
  {
    p := AppendLittleEndian([], a.worker, 8);
    p := AppendLittleEndian(p, a.boot, 8);
    p := AppendLittleEndian(p, a.epoch, 8);
    assert [] + LittleEndian(a.worker, 8) == LittleEndian(a.worker, 8);
  }

  function RegistrationIn(p: Bytes): Option<Speaker> {
    if |p| == 24 then Some(SpeakerAt(p)) else None
  }

  /** What reading a speaker leaves in place of the former one: the words that were there to read. */
  function SpeakerAfter(p: Bytes, former: Speaker): Speaker {
    Speaker(if |p| >= 8 then LongAt(p, 0) else former.worker,
            if |p| >= 16 then LongAt(p, 8) else former.boot,
            if |p| >= 24 then LongAt(p, 16) else former.epoch)
  }

  /** Reads into `former` until a word is missing. */
  method ReadSpeaker(r: PayloadReader, former: Speaker) returns (ok: bool, a: Speaker)
    requires r.Valid() && r.pos == 0
    modifies r
    ensures r.Valid()
    ensures ok <==> |r.data| >= 24
    ensures ok ==> r.pos == 24
    ensures a == SpeakerAfter(r.data, former)
  {
    hide LongAt;
    a := former;
    var worker := r.U64();
    if worker.Err? {
      return false, a;
    }
    a := a.(worker := worker.value);
    var boot := r.U64();
    if boot.Err? {
      return false, a;
    }
    a := a.(boot := boot.value);
    var epoch := r.U64();
    if epoch.Err? {
      return false, a;
    }
    a := a.(epoch := epoch.value);
    return true, a;
  }

  /** The outputs are written as they are read, also when the payload turns out malformed. */
  method ParseRegisterWorker(p: Bytes, former: Speaker) returns (ok: bool, a: Speaker)
    ensures ok <==> RegistrationIn(p).Some?
    ensures ok ==> RegistrationIn(p) == Some(a)
    ensures a == SpeakerAfter(p, former)
  {
    var reader := new PayloadReader(p);
    ok, a := ReadSpeaker(reader, former);
    if ok {
      var left := reader.Remaining();
      ok := left == 0;
    }
  }

  lemma SpeakerIsItsBytes(s: Bytes, a: Speaker)
    requires |s| >= 24
    ensures SpeakerAt(s) == a <==> s[..24] == SpeakerBytes(a)
  {
    hide LittleEndian, LongAt;
    LongAtIs(s, 0, a.worker);
    LongAtIs(s, 8, a.boot);
    LongAtIs(s, 16, a.epoch);
    assert s[..24] == s[0..8] + s[8..16] + s[16..24];
    Thirds(LittleEndian(a.worker, 8), LittleEndian(a.boot, 8), LittleEndian(a.epoch, 8), s[0..8], s[8..16], s[16..24]);
  }

  lemma Thirds(a: Bytes, b: Bytes, c: Bytes, x: Bytes, y: Bytes, z: Bytes)
    requires |a| == |x| && |b| == |y| && |c| == |z|
    ensures a + b + c == x + y + z <==> a == x && b == y && c == z
  {
    var s, t := a + b + c, x + y + z;
    assert s[..|a|] == a && t[..|a|] == x;
    assert s[|a|..|a| + |b|] == b && t[|a|..|a| + |b|] == y;
    assert s[|a| + |b|..] == c && t[|a| + |b|..] == z;
  }

  /** A registration payload is accepted exactly when it is the one built from what is read. */
  lemma RegistrationIsExact(p: Bytes, a: Speaker)
    ensures RegistrationIn(p) == Some(a) <==> p == SpeakerBytes(a)
  {
    hide SpeakerAt, SpeakerBytes;
    if |p| == 24 {
      SpeakerIsItsBytes(p, a);
      assert p[..24] == p;
    }
  }

  // ---------------------------------------------------------------- publishing a NIC

  const PUBLICATION_HEAD := 56
  const MAX_FIELD := 0xFFFF

  /** What a publication carries of a NIC: identity, generation, PCI key, NUMA node and name. */
  function NicBytes(n: NicRecord): Bytes
    requires |n.osName| < TWO_32
  {
    LittleEndian(n.id, 8) + LittleEndian(n.generation, 8) + LittleEndian(n.pci.Numeric(), 4) + LittleEndian(n.numaNode, 8)
    + LittleEndian(|n.osName|, 4) + n.osName
  }

  /** The payload, or the protocol error for a name over 0xFFFF bytes. */
  function Publication(a: Speaker, n: NicRecord): Outcome<Bytes> {
    if |n.osName| > MAX_FIELD then Err(ProtocolError) else Ok(SpeakerBytes(a) + NicBytes(n))
  }

  method PayloadPublishNic(a: Speaker, n: NicRecord) returns (r: Outcome<Bytes>)
    ensures r == Publication(a, n)
  {
    hide LittleEndian;
    var p := PayloadRegisterWorker(a);
    p := AppendLittleEndian(p, n.id, 8);
    p := AppendLittleEndian(p, n.generation, 8);
    p := AppendLittleEndian(p, n.pci.Numeric(), 4);
    p := AppendLittleEndian(p, n.numaNode, 8);
    if |n.osName| > 0xFFFF {
      return Err(ProtocolError);
    }
    p := AppendLittleEndian(p, |n.osName|, 4);
    p := p + n.osName;
    assert p == SpeakerBytes(a) + NicBytes(n);
    return Ok(p);
  }

  /** The record a receiver ends with: the transmitted fields, a canonical address, and the stamp of
      real, available, fresh evidence whatever the sender's own record said. Everything else is
      what the receiver's record held before. */
  function Received(base: NicRecord, n: NicRecord): NicRecord {
    base.(id := n.id, generation := n.generation, pci := PciAddress.FromNumeric(n.pci.Numeric()), numaNode := n.numaNode,
          osName := n.osName, provenance := Provenance(EvidenceKind.Real, [RdmaProvider]), lifecycle := Available, freshness := 1)
  }

  /** The parser on a whole payload. */
  function PublicationIn(p: Bytes, base: NicRecord): Option<(Speaker, NicRecord)> {
    if |p| < PUBLICATION_HEAD || |p| - PUBLICATION_HEAD != WordAt(p, 52) then None
    else Some((SpeakerAt(p),
               base.(id := LongAt(p, 24), generation := LongAt(p, 32), pci := PciAddress.FromNumeric(WordAt(p, 40)), numaNode := LongAt(p, 44),
                     osName := p[PUBLICATION_HEAD..], provenance := Provenance(EvidenceKind.Real, [RdmaProvider]),
                     lifecycle := Available, freshness := 1)))
  }

  /** What reading a publication leaves in place of the former record: the fields that were there to
      read, and the stamp once the name was complete. */
  function PublishedAfter(p: Bytes, base: NicRecord): NicRecord {
    var fields := base.(id := if |p| >= 32 then LongAt(p, 24) else base.id,
                        generation := if |p| >= 40 then LongAt(p, 32) else base.generation,
                        pci := if |p| >= 44 then PciAddress.FromNumeric(WordAt(p, 40)) else base.pci,
                        numaNode := if |p| >= 52 then LongAt(p, 44) else base.numaNode);
    if |p| < PUBLICATION_HEAD || |p| - PUBLICATION_HEAD < WordAt(p, 52) then fields
    else fields.(osName := p[PUBLICATION_HEAD..PUBLICATION_HEAD + WordAt(p, 52)],
                 provenance := Provenance(EvidenceKind.Real, [RdmaProvider]), lifecycle := Available, freshness := 1)
  }

  /** The outputs are written as they are read, also when the payload turns out malformed. */
  method ParsePublishNic(p: Bytes, former: Speaker, base: NicRecord) returns (ok: bool, a: Speaker, n: NicRecord)
    ensures ok <==> PublicationIn(p, base).Some?
    ensures ok ==> PublicationIn(p, base) == Some((a, n))
    ensures a == SpeakerAfter(p, former) && n == PublishedAfter(p, base)
  {
    hide LongAt, WordAt;
    n := base;
    var reader := new PayloadReader(p);
    ok, a := ReadSpeaker(reader, former);
    if !ok {
      return;
    }
    ok, n := ReadPublished(reader, base);
    if ok {
      var left := reader.Remaining();
      assert left == 0 ==> p[PUBLICATION_HEAD..reader.pos] == p[PUBLICATION_HEAD..];
      ok := left == 0;
    }
  }

  method ReadPublished(r: PayloadReader, base: NicRecord) returns (ok: bool, n: NicRecord)
    requires r.Valid() && r.pos == 24
    modifies r
    ensures r.Valid()
    ensures ok <==> |r.data| >= PUBLICATION_HEAD && |r.data| - PUBLICATION_HEAD >= WordAt(r.data, 52)
    ensures ok ==> r.pos == PUBLICATION_HEAD + WordAt(r.data, 52)
    ensures n == PublishedAfter(r.data, base)
  {
    hide LongAt, WordAt;
    n := base;
    var id := r.U64();
    if id.Err? {
      return false, n;
    }
    n := n.(id := id.value);
    var generation := r.U64();
    if generation.Err? {
      return false, n;
    }
    n := n.(generation := generation.value);
    var key := r.U32();
    if key.Err? {
      return false, n;
    }
    n := n.(pci := PciAddress.FromNumeric(key.value));
    var numaNode := r.U64();
    if numaNode.Err? {
      return false, n;
    }
    n := n.(numaNode := numaNode.value);
    var osName := r.Str();
    if osName.Err? {
      return false, n;
    }
    n := n.(osName := osName.value, provenance := Provenance(EvidenceKind.Real, [RdmaProvider]), lifecycle := Available, freshness := 1);
    return true, n;
  }

  lemma PublicationParts(a: Speaker, n: NicRecord)
    requires |n.osName| < TWO_32
    ensures
      var p := SpeakerBytes(a) + NicBytes(n);
      && |p| == PUBLICATION_HEAD + |n.osName|
      && p[..24] == SpeakerBytes(a)
      && p[24..32] == LittleEndian(n.id, 8) && p[32..40] == LittleEndian(n.generation, 8)
      && p[40..44] == LittleEndian(n.pci.Numeric(), 4) && p[44..52] == LittleEndian(n.numaNode, 8)
      && p[52..56] == LittleEndian(|n.osName|, 4) && p[56..] == n.osName
  {
    hide LittleEndian, SpeakerBytes;
    SixParts(SpeakerBytes(a), LittleEndian(n.id, 8), LittleEndian(n.generation, 8), LittleEndian(n.pci.Numeric(), 4),
             LittleEndian(n.numaNode, 8), LittleEndian(|n.osName|, 4), n.osName);
  }

  lemma SixParts(a: Bytes, b: Bytes, c: Bytes, d: Bytes, e: Bytes, f: Bytes, g: Bytes)
    requires |a| == 24 && |b| == 8 && |c| == 8 && |d| == 4 && |e| == 8 && |f| == 4
    ensures
      var p := a + (b + c + d + e + f + g);
      && p[..24] == a && p[24..32] == b && p[32..40] == c && p[40..44] == d && p[44..52] == e && p[52..56] == f && p[56..] == g
  {
  }

  /** Whatever is built, of any legal length, arrives as `Received`. */
  lemma PublicationArrives(a: Speaker, n: NicRecord, base: NicRecord)
    requires Publication(a, n).Ok?
    ensures PublicationIn(Publication(a, n).value, base) == Some((a, Received(base, n)))
  {
    PublicationBytesArrive(a, n, base);
  }

  lemma PublicationBytesArrive(a: Speaker, n: NicRecord, base: NicRecord)
    requires |n.osName| < TWO_32
    ensures PublicationIn(SpeakerBytes(a) + NicBytes(n), base) == Some((a, Received(base, n)))
  {
    hide LittleEndian, SpeakerBytes, SpeakerAt, NicBytes, WordAt, LongAt;
    var p := SpeakerBytes(a) + NicBytes(n);
    PublicationParts(a, n);
    SpeakerIsItsBytes(p, a);
    LongAtIs(p, 24, n.id);
    LongAtIs(p, 32, n.generation);
    WordAtIs(p, 40, n.pci.Numeric());
    LongAtIs(p, 44, n.numaNode);
    WordAtIs(p, 52, |n.osName|);
  }

  /** A payload is accepted exactly when it is the bytes of what is read, and what is read is always a
      received record. */
  lemma PublicationIsItsBytes(p: Bytes, base: NicRecord, a: Speaker, n: NicRecord)
    ensures PublicationIn(p, base) == Some((a, n)) <==>
            |n.osName| < TWO_32 && p == SpeakerBytes(a) + NicBytes(n) && n == Received(base, n)
  {
    hide LittleEndian, SpeakerBytes, SpeakerAt, NicBytes, WordAt, LongAt;
    if PublicationIn(p, base) == Some((a, n)) {
      NumericOfFromNumeric(WordAt(p, 40));
      SpeakerIsItsBytes(p, a);
      LongAtIs(p, 24, n.id);
      LongAtIs(p, 32, n.generation);
      WordAtIs(p, 40, n.pci.Numeric());
      LongAtIs(p, 44, n.numaNode);
      WordAtIs(p, 52, |n.osName|);
      PublicationParts(a, n);
      SameParts(p, SpeakerBytes(a) + NicBytes(n));
    } else if |n.osName| < TWO_32 && p == SpeakerBytes(a) + NicBytes(n) && n == Received(base, n) {
      PublicationBytesArrive(a, n, base);
    }
  }

  lemma SameParts(p: Bytes, q: Bytes)
    requires |p| >= PUBLICATION_HEAD && |q| >= PUBLICATION_HEAD
    requires p[..24] == q[..24] && p[24..32] == q[24..32] && p[32..40] == q[32..40] && p[40..44] == q[40..44]
    requires p[44..52] == q[44..52] && p[52..56] == q[52..56] && p[56..] == q[56..]
    ensures p == q
  {
    assert p == p[..24] + p[24..32] + p[32..40] + p[40..44] + p[44..52] + p[52..56] + p[56..];
    assert q == q[..24] + q[24..32] + q[32..40] + q[40..44] + q[44..52] + q[52..56] + q[56..];
  }

  /** A payload that fits a frame is accepted exactly when it is the publication of what is read. */
  lemma PublicationIsExact(p: Bytes, base: NicRecord, a: Speaker, n: NicRecord)
    requires Fits(p)
    ensures PublicationIn(p, base) == Some((a, n)) <==> Publication(a, n) == Ok(p) && n == Received(base, n)
  {
    hide PublicationIn, SpeakerBytes, NicBytes, Received;
    PublicationIsItsBytes(p, base, a, n);
    if |n.osName| < TWO_32 {
      PublicationParts(a, n);
    }
  }

  /** Past the frame limit the parser is laxer than the builder: it accepts names that the builder
      refuses. */
  lemma ParserOutrunsBuilder(a: Speaker, n: NicRecord)
    requires MAX_FIELD < |n.osName| < TWO_32
    ensures Publication(a, n).Err?
    ensures exists p :: PublicationIn(p, n) == Some((a, Received(n, n)))
  {
    PublicationBytesArrive(a, n, n);
  }

  // ---------------------------------------------------------------- payloads by their bytes

  /** Worker, boot and epoch stand in this order, eight bytes each. */
  lemma SpeakerLayout(a: Speaker)
    ensures SpeakerBytes(a)[..8] == LittleEndian(a.worker, 8)
    ensures SpeakerBytes(a)[8..16] == LittleEndian(a.boot, 8)
    ensures SpeakerBytes(a)[16..] == LittleEndian(a.epoch, 8)
  {
    hide LittleEndian;
  }

  /** What an accepted publication yields, from the bytes at their positions; the address is canonical,
      the evidence stamped, and every other field as the receiver had it. */
  lemma PublicationByBytes(p: Bytes, base: NicRecord, a: Speaker, n: NicRecord)
    ensures PublicationIn(p, base) == Some((a, n)) ==>
              && |p| >= 56 && FromLittleEndian(p[52..56]) == |p| - 56
              && a.worker == FromLittleEndian(p[0..8]) && a.boot == FromLittleEndian(p[8..16]) && a.epoch == FromLittleEndian(p[16..24])
              && n.id == FromLittleEndian(p[24..32]) && n.generation == FromLittleEndian(p[32..40])
              && n.pci.Numeric() == FromLittleEndian(p[40..44]) && n.pci.Canonical()
              && n.numaNode == FromLittleEndian(p[44..52]) && n.osName == p[56..]
              && n == base.(id := n.id, generation := n.generation, pci := n.pci, numaNode := n.numaNode, osName := n.osName,
                            provenance := Provenance(EvidenceKind.Real, [RdmaProvider]), lifecycle := Available, freshness := 1)
  {
    hide FromLittleEndian;
    if |p| >= 56 {
      NumericOfFromNumeric(WordAt(p, 40));
    }
  }

  /** What a refused publication has overwritten: each field whose bytes were there, and the stamp only
      with a whole name. */
  lemma RefusedPublicationLeaves(p: Bytes, former: Speaker, base: NicRecord)
    ensures
      var a, n := SpeakerAfter(p, former), PublishedAfter(p, base);
      && (|p| < 8 ==> a.worker == former.worker) && (|p| < 16 ==> a.boot == former.boot) && (|p| < 24 ==> a.epoch == former.epoch)
      && (|p| < 32 ==> n.id == base.id) && (|p| < 40 ==> n.generation == base.generation)
      && (|p| < 44 ==> n.pci == base.pci) && (|p| < 52 ==> n.numaNode == base.numaNode)
      && (|p| >= 32 ==> n.id == FromLittleEndian(p[24..32])) && (|p| >= 40 ==> n.generation == FromLittleEndian(p[32..40]))
      && (|p| >= 44 ==> n.pci.Numeric() == FromLittleEndian(p[40..44])) && (|p| >= 52 ==> n.numaNode == FromLittleEndian(p[44..52]))
      && (if |p| >= 56 && FromLittleEndian(p[52..56]) <= |p| - 56
          then n.osName == p[56..56 + FromLittleEndian(p[52..56])] && n.provenance == Provenance(EvidenceKind.Real, [RdmaProvider])
               && n.lifecycle == Available && n.freshness == 1
          else n.osName == base.osName && n.provenance == base.provenance && n.lifecycle == base.lifecycle && n.freshness == base.freshness)
  {
    hide FromLittleEndian;
    if |p| >= 44 {
      NumericOfFromNumeric(WordAt(p, 40));
    }
  }
}
